/**
 Exactly when the splice loop is the simultaneous substitution: an insertion that shares its start with a replacement
 emitted after it is in the way of the replacement's range.
 */
module SharedStarts {
  import opened Seqs
  import opened Sorting
  import opened Splice

  lemma {:induction false} ApplyConcat(source: string, a: seq<Edit>, b: seq<Edit>)
    ensures ApplyInOrder(source, a + b) == ApplyInOrder(ApplyInOrder(source, a), b)
  {
    if b == [] {
      assert a + b == a;
    } else {
      assert (a + b)[..|a + b| - 1] == a + b[..|b| - 1];
      ApplyConcat(source, a, b[..|b| - 1]);
    }
  }

  lemma ApplyFirst(source: string, edits: seq<Edit>)
    requires edits != []
    ensures ApplyInOrder(source, edits) == ApplyInOrder(ApplyEdit(source, edits[0]), edits[1..])
  {
    assert edits == [edits[0]] + edits[1..] && [edits[0]][..0] == [];
    ApplyConcat(source, [edits[0]], edits[1..]);
    assert ApplyInOrder(source, [edits[0]]) == ApplyEdit(ApplyInOrder(source, []), edits[0]);
  }

  /** Edits within `head`, applied from the later to the earlier, leave alone what stands behind it. */
  lemma {:induction false} TailUntouched(head: string, tail: string, desc: seq<Edit>)
    requires SortedBy(NoEarlier, desc) && Pairwise(Disjoint, desc)
    requires forall e :: e in desc ==> e.start <= e.end <= |head|
    ensures ApplyInOrder(head + tail, desc) == ApplyInOrder(head, desc) + tail
    decreases |desc|
  {
    if desc != [] {
      var e, rest := desc[0], desc[1..];
      ApplyFirst(head + tail, desc);
      ApplyFirst(head, desc);
      ApplyEditWithin(head, tail, e);
      forall x | x in rest ensures x.start <= x.end <= |ApplyEdit(head, e)| {
        StillWithin(head, e, x);
      }
      TailUntouched(ApplyEdit(head, e), tail, rest);
    }
  }

  lemma StillWithin(head: string, e: Edit, x: Edit)
    requires e.start <= e.end <= |head| && x.start <= x.end <= |head|
    requires NoEarlier(e, x) && Disjoint(x, e)
    ensures x.end <= |ApplyEdit(head, e)|
  {
  }

  lemma ApplyEditWithin(head: string, tail: string, e: Edit)
    requires e.start <= e.end <= |head|
    ensures ApplyEdit(head + tail, e) == ApplyEdit(head, e) + tail
  {
    assert (head + tail)[..e.start] == head[..e.start];
    assert (head + tail)[e.end..] == head[e.end..] + tail;
  }

  /** The texts of the insertions at one place, the last one in front. */
  function Stacked(insertions: seq<Edit>): string {
    if insertions == [] then ""
    else insertions[|insertions| - 1].text + Stacked(insertions[..|insertions| - 1])
  }

  lemma {:induction false} InsertionsStack(head: string, tail: string, insertions: seq<Edit>)
    requires forall e :: e in insertions ==> e.start == e.end == |head|
    ensures ApplyInOrder(head + tail, insertions) == head + (Stacked(insertions) + tail)
  {
    if insertions != [] {
      var front, last := insertions[..|insertions| - 1], insertions[|insertions| - 1];
      assert insertions == front + [last];
      InsertionsStack(head, tail, front);
      ApplyAt(head, Stacked(front) + tail, last);
      Regroup([], last.text, Stacked(front), tail);
    }
  }

  lemma ApplyAt(head: string, tail: string, e: Edit)
    requires e.start == |head| <= e.end <= |head| + |tail|
    ensures ApplyEdit(head + tail, e) == head + (e.text + tail[e.end - |head|..])
  {
    assert (head + tail)[..e.start] == head;
    assert (head + tail)[e.end..] == tail[e.end - |head|..];
  }

  /** Where the edits begin that share their start with edit `j` and come right before it. */
  function RunStart(edits: seq<Edit>, j: nat): (k: nat)
    requires j < |edits|
    ensures k <= j
  {
    if j == 0 || edits[j - 1].start != edits[j].start then j else RunStart(edits, j - 1)
  }

  lemma {:induction false} RunStartsThere(edits: seq<Edit>, j: nat)
    requires j < |edits|
    ensures forall i :: RunStart(edits, j) <= i <= j ==> edits[i].start == edits[j].start
    ensures RunStart(edits, j) > 0 ==> edits[RunStart(edits, j) - 1].start != edits[j].start
  {
    if j > 0 && edits[j - 1].start == edits[j].start {
      RunStartsThere(edits, j - 1);
    }
  }

  /**
   Where insertions stand in front of a replacement, the loop takes the length of the range off their text and the
   range together, and not off the range alone.  That does no harm where the outcome happens to be the same.
   */
  predicate Unharmed(range: string, inserted: string, replacement: string) {
    replacement + (inserted + range)[|range|..] == inserted + replacement
  }

  ghost predicate Harmless(source: string, edits: seq<Edit>, j: nat)
    requires j < |edits|
  {
    && edits[j].start <= edits[j].end <= |source|
    && Unharmed(source[edits[j].start..edits[j].end], Stacked(edits[RunStart(edits, j)..j]), edits[j].text)
  }

  lemma {:induction false} ChainOrder(edits: seq<Edit>, from: nat, length: nat, i: nat, j: nat)
    requires Chain(edits, from, length) && i < j < |edits|
    ensures edits[i].end <= edits[j].start
    decreases |edits|
  {
    if i > 0 {
      ChainOrder(edits[1..], edits[0].end, length, i - 1, j - 1);
    } else {
      ChainBounds(edits[1..], edits[0].end, length);
      assert edits[j] == edits[1..][j - 1];
    }
  }

  lemma ChainIsNonOverlapping(edits: seq<Edit>, length: nat)
    requires Chain(edits, 0, length)
    ensures NonOverlapping(edits, length)
    ensures forall i, j :: 0 <= i < j < |edits| ==> edits[i].end <= edits[j].start
  {
    ChainBounds(edits, 0, length);
    forall i, j | 0 <= i < j < |edits| ensures edits[i].end <= edits[j].start {
      ChainOrder(edits, 0, length, i, j);
    }
  }

  ghost predicate HarmlessAt(source: string, edits: seq<Edit>, j: nat)
    requires j < |edits|
  {
    IsInsertion(edits[j]) || Harmless(source, edits, j)
  }

  ghost predicate AllHarmless(source: string, edits: seq<Edit>) {
    forall j :: 0 <= j < |edits| ==> HarmlessAt(source, edits, j)
  }

  /** The last run of edits that share a start: insertions, and after them perhaps a replacement. */
  ghost predicate LastRun(edits: seq<Edit>, k: nat) {
    && k < |edits|
    && (forall i :: k <= i < |edits| ==> edits[i].start == edits[|edits| - 1].start)
    && (forall i :: k <= i < |edits| - 1 ==> IsInsertion(edits[i]))
    && (forall i :: 0 <= i < k ==>
          edits[i].start < edits[|edits| - 1].start && edits[i].end <= edits[|edits| - 1].start)
  }

  lemma RunIsLast(edits: seq<Edit>, length: nat)
    requires Chain(edits, 0, length) && edits != []
    ensures LastRun(edits, RunStart(edits, |edits| - 1))
  {
    var last, k := |edits| - 1, RunStart(edits, |edits| - 1);
    RunStartsThere(edits, last);
    forall i | 0 <= i < |edits| ensures edits[i].start <= edits[i].end <= length {
      ChainBounds(edits, 0, length);
      assert edits[i] in edits;
    }
    forall i | 0 <= i < last ensures edits[i].end <= edits[last].start {
      ChainOrder(edits, 0, length, i, last);
    }
    forall i | 0 <= i < k ensures edits[i].start < edits[last].start {
      if i < k - 1 {
        ChainOrder(edits, 0, length, i, k - 1);
      }
    }
  }

  /** Either order applies the last run first, and the earlier edits to what comes out. */
  lemma LastRunFirst(source: string, edits: seq<Edit>, k: nat, le: (Edit, Edit) -> bool)
    requires LastRun(edits, k) && (le == NoEarlier || le == ReplacesFirst)
    ensures ApplyInOrder(source, Sort(le, edits))
         == ApplyInOrder(ApplyInOrder(source, Sort(le, edits[k..])), Sort(le, edits[..k]))
  {
    var early, run := edits[..k], edits[k..];
    assert edits == early + run;
    SortConcat(le, early, run);
    ApplyConcat(source, Sort(le, run), Sort(le, early));
  }

  /** Insertions at `s`, and after them one more edit there. */
  ghost predicate IsRun(insertions: seq<Edit>, last: Edit, s: nat, length: nat) {
    && (forall e :: e in insertions ==> e.start == e.end == s)
    && last.start == s <= last.end <= length
  }

  /** What the loop makes of the text from a run on: the insertions come first, and the last edit cuts into them. */
  function LoopTail(tail: string, insertions: seq<Edit>, last: Edit, s: nat): string
    requires IsRun(insertions, last, s, s + |tail|)
  {
    last.text + (Stacked(insertions) + tail)[last.end - s..]
  }

  /** What the substitution makes of it. */
  function ProperTail(tail: string, insertions: seq<Edit>, last: Edit, s: nat): string
    requires IsRun(insertions, last, s, s + |tail|)
  {
    if IsInsertion(last) then LoopTail(tail, insertions, last, s)
    else Stacked(insertions) + (last.text + tail[last.end - s..])
  }

  lemma LoopKeepsRun(insertions: seq<Edit>, last: Edit, s: nat, length: nat)
    requires IsRun(insertions, last, s, length)
    ensures SortDescending(insertions + [last]) == insertions + [last]
  {
    var run := insertions + [last];
    forall i | 0 <= i < |run| ensures run[i].start == s {
      assert i < |insertions| ==> run[i] == insertions[i];
    }
    SortOrdered(NoEarlier, run);
  }

  lemma InsertionsKeepOrder(insertions: seq<Edit>, s: nat)
    requires forall e :: e in insertions ==> e.start == e.end == s
    ensures Sort(ReplacesFirst, insertions) == insertions
  {
    forall i, j | 0 <= i < j < |insertions| ensures ReplacesFirst(insertions[i], insertions[j]) {
      assert insertions[i] in insertions && insertions[j] in insertions;
    }
    SortOrdered(ReplacesFirst, insertions);
  }

  lemma ReplacementMovesUp(insertions: seq<Edit>, last: Edit, s: nat, length: nat)
    requires IsRun(insertions, last, s, length)
    ensures Sort(ReplacesFirst, insertions + [last])
         == if IsInsertion(last) then insertions + [last] else [last] + insertions
  {
    if IsInsertion(last) {
      InsertionsKeepOrder(insertions + [last], s);
    } else {
      InsertionsKeepOrder(insertions, s);
      SortLast(ReplacesFirst, insertions, last);
      forall x | x in insertions ensures !ReplacesFirst(x, last) {
      }
      InsertFront(ReplacesFirst, insertions, last);
    }
  }

  lemma ApplyLast(source: string, edits: seq<Edit>, last: Edit)
    ensures ApplyInOrder(source, edits + [last]) == ApplyEdit(ApplyInOrder(source, edits), last)
  {
    assert (edits + [last])[..|edits|] == edits;
  }

  lemma {:induction false} RunInLoop(head: string, tail: string, insertions: seq<Edit>, last: Edit)
    requires IsRun(insertions, last, |head|, |head| + |tail|)
    ensures ApplyInOrder(head + tail, insertions + [last]) == head + LoopTail(tail, insertions, last, |head|)
  {
    calc {
      ApplyInOrder(head + tail, insertions + [last]);
      { ApplyLast(head + tail, insertions, last); }
      ApplyEdit(ApplyInOrder(head + tail, insertions), last);
      { InsertionsStack(head, tail, insertions); }
      ApplyEdit(head + (Stacked(insertions) + tail), last);
      { ApplyAt(head, Stacked(insertions) + tail, last); }
      head + LoopTail(tail, insertions, last, |head|);
    }
  }

  lemma ReplacementFirst(head: string, tail: string, insertions: seq<Edit>, last: Edit, rest: string)
    requires last.start == |head| <= last.end <= |head| + |tail| && rest == last.text + tail[last.end - |head|..]
    ensures ApplyInOrder(head + tail, [last] + insertions) == ApplyInOrder(head + rest, insertions)
  {
    ApplyAt(head, tail, last);
    ApplyOneThen(head + tail, last, insertions);
  }

  lemma {:induction false} ReplacementInPlace(head: string, tail: string, insertions: seq<Edit>, last: Edit)
    requires IsRun(insertions, last, |head|, |head| + |tail|) && !IsInsertion(last)
    ensures ApplyInOrder(head + tail, [last] + insertions) == head + ProperTail(tail, insertions, last, |head|)
  {
    var rest := last.text + tail[last.end - |head|..];
    assert ProperTail(tail, insertions, last, |head|) == Stacked(insertions) + rest;
    assert ApplyInOrder(head + tail, [last] + insertions) == ApplyInOrder(head + rest, insertions) by {
      ReplacementFirst(head, tail, insertions, last, rest);
    }
    assert ApplyInOrder(head + rest, insertions) == head + (Stacked(insertions) + rest) by {
      InsertionsStack(head, rest, insertions);
    }
  }

  lemma ApplyOneThen(source: string, first: Edit, edits: seq<Edit>)
    ensures ApplyInOrder(source, [first] + edits) == ApplyInOrder(ApplyEdit(source, first), edits)
  {
    ApplyFirst(source, [first] + edits);
    assert ([first] + edits)[1..] == edits;
  }

  lemma {:induction false} RunApplied(head: string, tail: string, insertions: seq<Edit>, last: Edit)
    requires IsRun(insertions, last, |head|, |head| + |tail|)
    ensures ApplyInOrder(head + tail, SortDescending(insertions + [last]))
         == head + LoopTail(tail, insertions, last, |head|)
    ensures ApplyInOrder(head + tail, Sort(ReplacesFirst, insertions + [last]))
         == head + ProperTail(tail, insertions, last, |head|)
  {
    LoopKeepsRun(insertions, last, |head|, |head| + |tail|);
    ReplacementMovesUp(insertions, last, |head|, |head| + |tail|);
    RunInLoop(head, tail, insertions, last);
    if !IsInsertion(last) {
      ReplacementInPlace(head, tail, insertions, last);
    }
  }

  /**
   The two tails are equally long, and equal exactly where the stretch up to the end of the range comes out the same.
   */
  lemma TailsCompare(tail: string, insertions: seq<Edit>, last: Edit, s: nat)
    requires IsRun(insertions, last, s, s + |tail|) && !IsInsertion(last)
    ensures var n, stack := last.end - s, Stacked(insertions);
            var loop, proper := LoopTail(tail, insertions, last, s), ProperTail(tail, insertions, last, s);
            && |loop| == |proper|
            && (loop == proper <==> Unharmed(tail[..n], stack, last.text))
  {
    var n, stack := last.end - s, Stacked(insertions);
    assert stack + tail == (stack + tail[..n]) + tail[n..];
    assert (stack + tail)[n..] == (stack + tail[..n])[n..] + tail[n..];
    Associate(last.text, (stack + tail[..n])[n..], tail[n..]);
    Associate(stack, last.text, tail[n..]);
    SameTail(last.text + (stack + tail[..n])[n..], stack + last.text, tail[n..]);
  }

  lemma SameTail<T>(a: seq<T>, b: seq<T>, tail: seq<T>)
    requires |a| == |b|
    ensures a + tail == b + tail <==> a == b
  {
    if a + tail == b + tail {
      assert a == (a + tail)[..|a|] && b == (b + tail)[..|b|];
    }
  }

  /** Two texts that end in equally long tails are equal exactly if both parts are. */
  lemma SameParts<T>(a: seq<T>, b: seq<T>, s: seq<T>, t: seq<T>)
    requires |s| == |t|
    ensures a + s == b + t <==> a == b && s == t
  {
    if a + s == b + t {
      assert |a| == |b|;
      assert a == (a + s)[..|a|] && b == (b + t)[..|b|];
      assert s == (a + s)[|a|..] && t == (b + t)[|b|..];
    }
  }

  lemma {:induction false} SameRunStart(edits: seq<Edit>, k: nat, j: nat)
    requires j < k <= |edits|
    ensures RunStart(edits[..k], j) == RunStart(edits, j)
  {
    if j > 0 {
      SameRunStart(edits, k, j - 1);
    }
  }

  /** Whether a replacement does harm depends only on the text and the edits up to it. */
  lemma HarmlessEarlier(source: string, edits: seq<Edit>, k: nat, s: nat, j: nat)
    requires j < k <= |edits| && edits[j].start <= edits[j].end <= s <= |source|
    ensures Harmless(source[..s], edits[..k], j) <==> Harmless(source, edits, j)
  {
    var e := edits[j];
    SameRunStart(edits, k, j);
    assert edits[..k][RunStart(edits, j)..j] == edits[RunStart(edits, j)..j];
    assert source[..s][e.start..e.end] == source[e.start..e.end];
  }

  lemma {:induction false} ChainPrefix(edits: seq<Edit>, from: nat, length: nat, k: nat, s: nat)
    requires Chain(edits, from, length) && k <= |edits| && from <= s
    requires forall i :: 0 <= i < k ==> edits[i].end <= s
    ensures Chain(edits[..k], from, s)
    decreases |edits|
  {
    if k > 0 {
      ChainPrefix(edits[1..], edits[0].end, length, k - 1, s);
      assert edits[..k][1..] == edits[1..][..k - 1];
    }
  }

  /** Earlier edits are applied to the text before a run alone. */
  lemma EarlyApart(head: string, tail: string, early: seq<Edit>, le: (Edit, Edit) -> bool)
    requires NonOverlapping(early, |head|) && (le == NoEarlier || le == ReplacesFirst)
    ensures ApplyInOrder(head + tail, Sort(le, early)) == ApplyInOrder(head, Sort(le, early)) + tail
  {
    SortDescends(le, early);
    SortPairwise(le, Disjoint, early);
    forall e | e in Sort(le, early) ensures e.start <= e.end <= |head| {
      SortMember(le, early, e);
    }
    TailUntouched(head, tail, Sort(le, early));
  }

  lemma SortDescends(le: (Edit, Edit) -> bool, edits: seq<Edit>)
    requires le == NoEarlier || le == ReplacesFirst
    ensures SortedBy(NoEarlier, Sort(le, edits))
  {
    SortSorts(le, edits);
    Descends(le, Sort(le, edits));
  }

  lemma {:induction false} Descends(le: (Edit, Edit) -> bool, sorted: seq<Edit>)
    requires (le == NoEarlier || le == ReplacesFirst) && SortedBy(le, sorted)
    ensures SortedBy(NoEarlier, sorted)
  {
    if sorted != [] {
      Descends(le, sorted[1..]);
    }
  }

  /** The loop on all edits is the loop on the earlier ones, followed by the tail of the last run. */
  lemma {:induction false} RunInOrder(source: string, edits: seq<Edit>, k: nat, s: nat, le: (Edit, Edit) -> bool,
                                      tail: string)
    requires LastRun(edits, k) && s <= |source| && NonOverlapping(edits[..k], s)
             && (le == NoEarlier || le == ReplacesFirst)
    requires ApplyInOrder(source, Sort(le, edits[k..])) == source[..s] + tail
    ensures ApplyInOrder(source, Sort(le, edits)) == ApplyInOrder(source[..s], Sort(le, edits[..k])) + tail
  {
    LastRunFirst(source, edits, k, le);
    EarlyApart(source[..s], tail, edits[..k], le);
  }

  ghost predicate LoopSubstitutes(source: string, edits: seq<Edit>) {
    NonOverlapping(edits, |source|) && ApplyInOrder(source, SortDescending(edits)) == SubstituteAll(source, edits)
  }

  /** One run more: the loop is right on all edits exactly if it is on the earlier ones and makes the right tail. */
  lemma {:induction false} RunDecides(source: string, edits: seq<Edit>, k: nat, insertions: seq<Edit>, last: Edit,
                                      s: nat)
    requires LastRun(edits, k) && edits[k..] == insertions + [last]
    requires NonOverlapping(edits, |source|) && s <= |source| && NonOverlapping(edits[..k], s)
    requires IsRun(insertions, last, s, |source|)
    ensures var loop, proper
              := LoopTail(source[s..], insertions, last, s), ProperTail(source[s..], insertions, last, s);
            |loop| == |proper| ==>
              (LoopSubstitutes(source, edits) <==> LoopSubstitutes(source[..s], edits[..k]) && loop == proper)
  {
    var head, tail, early := source[..s], source[s..], edits[..k];
    var loop, proper := LoopTail(tail, insertions, last, s), ProperTail(tail, insertions, last, s);
    assert source == head + tail;
    RunApplied(head, tail, insertions, last);
    RunInOrder(source, edits, k, s, NoEarlier, loop);
    RunInOrder(source, edits, k, s, ReplacesFirst, proper);
    SubstituteAllInOrder(source, edits);
    SubstituteAllInOrder(head, early);
    if |loop| == |proper| {
      SameParts(ApplyInOrder(head, SortDescending(early)), SubstituteAll(head, early), loop, proper);
    }
  }

  lemma RangeOfTail(source: string, s: nat, end: nat)
    requires s <= end <= |source|
    ensures source[s..][..end - s] == source[s..end]
  {
  }

  /** The tails of the last run are equally long; they are equal where the last edit is an insertion or does no harm. */
  lemma LastHarmless(source: string, insertions: seq<Edit>, last: Edit, s: nat)
    requires s <= |source| && IsRun(insertions, last, s, |source|)
    ensures |LoopTail(source[s..], insertions, last, s)| == |ProperTail(source[s..], insertions, last, s)|
    ensures LoopTail(source[s..], insertions, last, s) == ProperTail(source[s..], insertions, last, s)
       <==> IsInsertion(last) || Unharmed(source[s..last.end], Stacked(insertions), last.text)
  {
    if !IsInsertion(last) {
      RangeOfTail(source, s, last.end);
      TailsCompare(source[s..], insertions, last, s);
    }
  }

  lemma LastRunDecides(source: string, edits: seq<Edit>, k: nat, insertions: seq<Edit>, last: Edit, s: nat)
    requires LastRun(edits, k) && edits[k..] == insertions + [last]
    requires NonOverlapping(edits, |source|) && s <= |source| && NonOverlapping(edits[..k], s)
    requires IsRun(insertions, last, s, |source|)
    ensures LoopSubstitutes(source, edits)
       <==> && LoopSubstitutes(source[..s], edits[..k])
            && (IsInsertion(last) || Unharmed(source[s..last.end], Stacked(insertions), last.text))
  {
    RunDecides(source, edits, k, insertions, last, s);
    LastHarmless(source, insertions, last, s);
  }

  lemma LastRunIs(edits: seq<Edit>, k: nat, length: nat)
    requires LastRun(edits, k) && NonOverlapping(edits, length)
    ensures IsRun(edits[k..|edits| - 1], edits[|edits| - 1], edits[|edits| - 1].start, length)
  {
    assert edits[|edits| - 1] in edits;
    forall e | e in edits[k..|edits| - 1] ensures e.start == e.end == edits[|edits| - 1].start {
      var i :| 0 <= i < |edits| - 1 - k && edits[k..|edits| - 1][i] == e;
      assert e == edits[k + i];
    }
  }

  /** The edits before the last run stand in the text before it. */
  lemma EarlyChain(edits: seq<Edit>, length: nat)
    requires Chain(edits, 0, length) && edits != []
    ensures var k, s := RunStart(edits, |edits| - 1), edits[|edits| - 1].start;
            s <= length && Chain(edits[..k], 0, s) && LastRun(edits, k)
  {
    var k, s := RunStart(edits, |edits| - 1), edits[|edits| - 1].start;
    RunIsLast(edits, length);
    ChainBounds(edits, 0, length);
    assert edits[|edits| - 1] in edits;
    ChainPrefix(edits, 0, length, k, s);
  }

  lemma SplitLast<T>(s: seq<T>, k: nat)
    requires k < |s|
    ensures s[k..] == s[k..|s| - 1] + [s[|s| - 1]]
  {
  }

  lemma LastRunFacts(edits: seq<Edit>, k: nat, s: nat, length: nat)
    requires Chain(edits, 0, length) && edits != [] && k == RunStart(edits, |edits| - 1)
             && s == edits[|edits| - 1].start
    ensures LastRun(edits, k) && s <= length && NonOverlapping(edits, length) && NonOverlapping(edits[..k], s)
    ensures IsRun(edits[k..|edits| - 1], edits[|edits| - 1], s, length)
  {
    EarlyChain(edits, length);
    ChainIsNonOverlapping(edits, length);
    ChainIsNonOverlapping(edits[..k], s);
    LastRunIs(edits, k, length);
  }

  lemma HarmlessAtLast(source: string, edits: seq<Edit>, k: nat, last: Edit)
    requires edits != [] && k == RunStart(edits, |edits| - 1) && last == edits[|edits| - 1]
    requires last.start <= last.end <= |source|
    ensures HarmlessAt(source, edits, |edits| - 1)
       <==> IsInsertion(last) || Unharmed(source[last.start..last.end], Stacked(edits[k..|edits| - 1]), last.text)
  {
  }

  lemma {:induction false} LoopByRuns(source: string, edits: seq<Edit>, k: nat, s: nat)
    requires Chain(edits, 0, |source|) && edits != [] && k == RunStart(edits, |edits| - 1)
    requires s == edits[|edits| - 1].start <= |source|
    ensures LoopSubstitutes(source, edits)
       <==> LoopSubstitutes(source[..s], edits[..k]) && HarmlessAt(source, edits, |edits| - 1)
  {
    LastRunFacts(edits, k, s, |source|);
    SplitLast(edits, k);
    HarmlessAtLast(source, edits, k, edits[|edits| - 1]);
    LastRunDecides(source, edits, k, edits[k..|edits| - 1], edits[|edits| - 1], s);
  }

  lemma HarmlessAtEarlier(source: string, edits: seq<Edit>, k: nat, s: nat, j: nat)
    requires j < k <= |edits| && edits[j].start <= edits[j].end <= s <= |source|
    ensures HarmlessAt(source[..s], edits[..k], j) <==> HarmlessAt(source, edits, j)
  {
    HarmlessEarlier(source, edits, k, s, j);
  }

  /** Whether all is harmless is decided by the edits before the last run and by its last edit. */
  lemma HarmlessBefore(source: string, edits: seq<Edit>, k: nat, s: nat)
    requires k < |edits| && s <= |source|
    requires forall j :: 0 <= j < k ==> edits[j].start <= edits[j].end <= s
    requires forall j :: k <= j < |edits| - 1 ==> HarmlessAt(source, edits, j)
    ensures AllHarmless(source, edits)
       <==> AllHarmless(source[..s], edits[..k]) && HarmlessAt(source, edits, |edits| - 1)
  {
    forall j | 0 <= j < k ensures HarmlessAt(source[..s], edits[..k], j) <==> HarmlessAt(source, edits, j) {
      HarmlessAtEarlier(source, edits, k, s, j);
    }
  }

  lemma {:induction false} HarmlessByRuns(source: string, edits: seq<Edit>, k: nat, s: nat)
    requires Chain(edits, 0, |source|) && edits != [] && k == RunStart(edits, |edits| - 1)
    requires s == edits[|edits| - 1].start <= |source|
    ensures AllHarmless(source, edits)
       <==> AllHarmless(source[..s], edits[..k]) && HarmlessAt(source, edits, |edits| - 1)
  {
    EarlyChain(edits, |source|);
    forall j | 0 <= j < k ensures edits[j].start <= edits[j].end <= s {
      ChainBounds(edits, 0, |source|);
      assert edits[j] in edits;
    }
    HarmlessBefore(source, edits, k, s);
  }

  /** For edits one behind the other, the loop is the substitution exactly where no replacement does harm. */
  lemma {:induction false} SpliceIsExact(source: string, edits: seq<Edit>)
    requires Chain(edits, 0, |source|)
    ensures LoopSubstitutes(source, edits) <==> AllHarmless(source, edits)
    decreases |edits|
  {
    if edits == [] {
      SubstituteAllInOrder(source, edits);
    } else {
      var k, s := RunStart(edits, |edits| - 1), edits[|edits| - 1].start;
      EarlyChain(edits, |source|);
      LoopByRuns(source, edits, k, s);
      HarmlessByRuns(source, edits, k, s);
      SpliceIsExact(source[..s], edits[..k]);
    }
  }

  // ----- Exactly when it is so whatever the texts are

  ghost predicate SameRanges(edits: seq<Edit>, others: seq<Edit>) {
    && |edits| == |others|
    && forall i :: 0 <= i < |edits| ==> edits[i].start == others[i].start && edits[i].end == others[i].end
  }

  lemma {:induction false} SameRangesChain(edits: seq<Edit>, others: seq<Edit>, from: nat, length: nat)
    requires Chain(edits, from, length) && SameRanges(edits, others)
    ensures Chain(others, from, length)
    decreases |edits|
  {
    if edits != [] {
      SameRangesChain(edits[1..], others[1..], edits[0].end, length);
    }
  }

  /**
   The same ranges, no text but one, and that one as long as the range of edit `j` and different from what it holds.
   */
  function Spoiling(source: string, edits: seq<Edit>, j: nat): seq<Edit>
    requires j < |edits| && edits[j].start < edits[j].end <= |source|
  {
    var e := edits[j];
    var c := if source[e.start] == 'a' then 'b' else 'a';
    seq(|edits|, i requires 0 <= i < |edits| =>
          edits[i].(text := if i + 1 == j then seq(e.end - e.start, _ => c) else ""))
  }

  lemma {:induction false} StackedBlank(insertions: seq<Edit>)
    requires forall e :: e in insertions ==> e.text == ""
    ensures Stacked(insertions) == ""
  {
    if insertions != [] {
      StackedBlank(insertions[..|insertions| - 1]);
    }
  }

  lemma SpoilingStack(source: string, edits: seq<Edit>, j: nat)
    requires 0 < j < |edits| && edits[j].start < edits[j].end <= |source| && edits[j - 1].start == edits[j].start
    ensures var others := Spoiling(source, edits, j); Stacked(others[RunStart(others, j)..j]) == others[j - 1].text
  {
    var others := Spoiling(source, edits, j);
    var r := RunStart(others, j);
    assert r == RunStart(others, j - 1) <= j - 1;
    StackedBlank(others[r..j - 1]);
    StackedMore(others, r, j - 1);
    assert Stacked(others[r..j]) == others[j - 1].text + "";
  }

  lemma StackedMore(edits: seq<Edit>, r: nat, j: nat)
    requires r <= j < |edits|
    ensures Stacked(edits[r..j + 1]) == edits[j].text + Stacked(edits[r..j])
  {
    assert edits[r..j + 1][..j - r] == edits[r..j];
  }

  lemma FillerHarms(range: string, filler: string)
    requires |range| == |filler| > 0 && range[0] != filler[0]
    ensures !Unharmed(range, filler, "")
  {
    assert (filler + range)[|range|..] == range;
    assert ("" + range)[0] == range[0] && (filler + "")[0] == filler[0];
  }

  lemma SpoilingHarms(source: string, edits: seq<Edit>, j: nat)
    requires 0 < j < |edits| && edits[j].start < edits[j].end <= |source| && edits[j - 1].start == edits[j].start
    ensures !Harmless(source, Spoiling(source, edits, j), j)
  {
    var others := Spoiling(source, edits, j);
    SpoilingStack(source, edits, j);
    FillerHarms(source[edits[j].start..edits[j].end], others[j - 1].text);
  }

  lemma LeadingSubstitutes(source: string, edits: seq<Edit>, others: seq<Edit>)
    requires Chain(edits, 0, |source|) && ReplacementsLead(edits) && SameRanges(edits, others)
    ensures LoopSubstitutes(source, others)
  {
    SameRangesChain(edits, others, 0, |source|);
    ChainIsNonOverlapping(others, |source|);
    SpliceIsSubstitution(source, others);
  }

  lemma {:induction false} SpoilingSpoils(source: string, edits: seq<Edit>, j: nat)
    requires Chain(edits, 0, |source|) && 0 < j < |edits| && edits[j].start < edits[j].end <= |source|
    requires edits[j - 1].start == edits[j].start
    ensures SameRanges(edits, Spoiling(source, edits, j)) && !LoopSubstitutes(source, Spoiling(source, edits, j))
  {
    var others := Spoiling(source, edits, j);
    SameRangesChain(edits, others, 0, |source|);
    SpoilingHarms(source, edits, j);
    HarmSpoils(source, others, j);
  }

  lemma {:induction false} HarmSpoils(source: string, edits: seq<Edit>, j: nat)
    requires Chain(edits, 0, |source|) && j < |edits| && !HarmlessAt(source, edits, j)
    ensures !LoopSubstitutes(source, edits)
  {
    SpliceIsExact(source, edits);
  }

  lemma AdjacentFollows(source: string, edits: seq<Edit>, i: nat, j: nat)
    requires Chain(edits, 0, |source|) && i < j < |edits| && edits[i].start == edits[j].start
    ensures edits[j - 1].start == edits[j].start && edits[j].start <= edits[j].end <= |source|
  {
    ChainBounds(edits, 0, |source|);
    assert edits[i] in edits && edits[j - 1] in edits && edits[j] in edits;
    ChainOrder(edits, 0, |source|, j - 1, j);
    if i < j - 1 {
      ChainOrder(edits, 0, |source|, i, j - 1);
    }
  }

  /**
   The loop substitutes all at once, whatever the texts are, exactly where no replacement comes after another edit with
   its start.
   */
  lemma SubstitutesEveryText(source: string, edits: seq<Edit>)
    requires Chain(edits, 0, |source|)
    ensures (forall others :: SameRanges(edits, others) ==> LoopSubstitutes(source, others))
       <==> ReplacementsLead(edits)
  {
    if ReplacementsLead(edits) {
      forall others | SameRanges(edits, others) ensures LoopSubstitutes(source, others) {
        LeadingSubstitutes(source, edits, others);
      }
    } else {
      var i, j :| 0 <= i < j < |edits| && edits[i].start == edits[j].start && !IsInsertion(edits[j]);
      AdjacentFollows(source, edits, i, j);
      SpoilingSpoils(source, edits, j);
    }
  }

  lemma StackedOne(e: Edit)
    ensures Stacked([e]) == e.text
  {
    assert [e][..0] == [];
  }

  /** An insertion and then a replacement with one start: the loop cuts through the inserted text. */
  lemma InsertionThenReplacement(before: string, range: string, after: string, a: Edit, b: Edit)
    requires range != "" && a.start == a.end == b.start == |before| && b.end == |before| + |range|
    ensures ApplyInOrder(before + (range + after), SortDescending([a, b]))
         == before + (b.text + (a.text + (range + after))[|range|..])
  {
    var pair := [a, b];
    SortOrdered(NoEarlier, pair);
    RunInLoop(before, range + after, [a], b);
    assert [a] + [b] == pair;
    StackedOne(a);
  }

  /** That puts both texts in place exactly where the range and the two texts happen to come out the same. */
  lemma CutThroughHarms(before: string, range: string, after: string, inserted: string, replacement: string)
    ensures before + (replacement + (inserted + (range + after))[|range|..])
         == before + (inserted + (replacement + after))
       <==> Unharmed(range, inserted, replacement)
  {
    var cut := (inserted + range)[|range|..];
    assert (inserted + (range + after))[|range|..] == cut + after;
    Associate(replacement, cut, after);
    Associate(inserted, replacement, after);
    SamePrefix(before, replacement + (cut + after), inserted + (replacement + after));
    SameTail(replacement + cut, inserted + replacement, after);
  }

  lemma SamePrefix<T>(head: seq<T>, a: seq<T>, b: seq<T>)
    ensures head + a == head + b <==> a == b
  {
    if head + a == head + b {
      assert a == (head + a)[|head|..] && b == (head + b)[|head|..];
    }
  }

  /** In the other order both texts are put in place. */
  lemma ReplacementThenInsertion(before: string, range: string, after: string, a: Edit, b: Edit)
    requires range != "" && a.start == a.end == b.start == |before| && b.end == |before| + |range|
    ensures ApplyInOrder(before + (range + after), SortDescending([b, a])) == before + (a.text + (b.text + after))
  {
    var pair := [b, a];
    SortOrdered(NoEarlier, pair);
    StackedOne(a);
    assert [b] + [a] == pair;
    ReplacementInPlace(before, range + after, [a], b);
    assert (range + after)[|range|..] == after;
  }
}
