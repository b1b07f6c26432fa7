/**
 Capturing a reply stream: fragments that extend one another are merged into one entry, status acknowledgements never.
 `ack` stands for the status pattern, which no empty text matches.
 */
module Replies {
  import opened Options
  import opened Seqs
  import opened Text

  // ----- The functions of the capture

  function Append(ack: string -> bool, existing: seq<string>, nextReply: string): seq<string> {
    var next := Trim(nextReply);
    if next == "" then existing
    else if existing == [] then [nextReply]
    else
      var front, previous := existing[..|existing| - 1], Trim(existing[|existing| - 1]);
      if !ack(previous) && !ack(next) then
        if previous == next then existing
        else if previous <= next then front + [nextReply]
        else if next <= previous then existing
        else existing + [nextReply]
      else existing + [nextReply]
  }

  method AppendCoalescedReply(ack: string -> bool, existing: seq<string>, nextReply: string)
    returns (updated: seq<string>)
    ensures updated == Append(ack, existing, nextReply)
  {
    var next := Trim(nextReply);
    if |next| == 0 {
      return existing;
    }
    if |existing| == 0 {
      return [nextReply];
    }
    updated := existing;
    var lastIndex := |updated| - 1;
    var previous := Trim(updated[lastIndex]);
    if !ack(previous) && !ack(next) {
      if previous == next {
        return;
      }
      if previous <= next {
        updated := updated[lastIndex := nextReply];
        return;
      }
      if next <= previous {
        return;
      }
    }
    updated := updated + [nextReply];
  }

  /** The capture of a whole stream. */
  function Coalesce(ack: string -> bool, stream: seq<string>): seq<string> {
    if stream == [] then [] else Append(ack, Coalesce(ack, stream[..|stream| - 1]), stream[|stream| - 1])
  }

  predicate IsAck(ack: string -> bool, reply: string) {
    ack(Trim(reply))
  }

  /** `replies.filter(...)`, for the acknowledgements or for the others. */
  function Only(ack: string -> bool, replies: seq<string>, acks: bool): seq<string> {
    if replies == [] then []
    else Only(ack, replies[..|replies| - 1], acks)
         + (if IsAck(ack, replies[|replies| - 1]) == acks then [replies[|replies| - 1]] else [])
  }

  function SelectFinalReply(ack: string -> bool, replies: seq<string>): Option<string> {
    var nonAck := Only(ack, replies, false);
    if |nonAck| == 0 then None else Some(nonAck[|nonAck| - 1])
  }

  function CountAckReplies(ack: string -> bool, replies: seq<string>): nat {
    |Only(ack, replies, true)|
  }

  /** There is a reply that is no acknowledgement, and an acknowledgement is last. */
  ghost predicate Drifts(ack: string -> bool, replies: seq<string>) {
    (exists r :: r in replies && !IsAck(ack, r)) && IsAck(ack, replies[|replies| - 1])
  }

  /** The final reply is the last that is no acknowledgement; there is none if all are. */
  lemma {:induction false} FinalReplyMeaning(ack: string -> bool, replies: seq<string>)
    ensures match SelectFinalReply(ack, replies)
            case None => forall i :: 0 <= i < |replies| ==> ack(Trim(replies[i]))
            case Some(final) =>
              exists i :: 0 <= i < |replies| && replies[i] == final && !ack(Trim(final))
                          && forall j :: i < j < |replies| ==> ack(Trim(replies[j]))
  {
    if replies != [] {
      var front := replies[..|replies| - 1];
      FinalReplyMeaning(ack, front);
      assert forall i :: 0 <= i < |front| ==> front[i] == replies[i];
    }
  }

  /** Acknowledgements are counted as often as they occur. */
  lemma {:induction false} AckCountMeaning(ack: string -> bool, replies: seq<string>)
    ensures CountAckReplies(ack, replies) == |set i | 0 <= i < |replies| && ack(Trim(replies[i]))|
  {
    OnlyIsCounted(ack, replies);
    CountIsCardinality(replies, r => ack(Trim(r)), set i | 0 <= i < |replies| && ack(Trim(replies[i])));
  }

  lemma {:induction false} OnlyIsCounted(ack: string -> bool, replies: seq<string>)
    ensures CountAckReplies(ack, replies) == Count(replies, r => ack(Trim(r)))
  {
    if replies != [] {
      OnlyIsCounted(ack, replies[..|replies| - 1]);
    }
  }

  method DetectAckAfterFinal(ack: string -> bool, replies: seq<string>) returns (drift: bool)
    ensures drift <==> Drifts(ack, replies)
  {
    var lastNonAckIndex := -1;
    for index := 0 to |replies|
      invariant -1 <= lastNonAckIndex < index
      invariant lastNonAckIndex >= 0 ==> !IsAck(ack, replies[lastNonAckIndex])
      invariant forall i :: lastNonAckIndex < i < index ==> IsAck(ack, replies[i])
    {
      if !ack(Trim(replies[index])) {
        lastNonAckIndex := index;
      }
    }
    if lastNonAckIndex < 0 {
      return false;
    }
    for index := lastNonAckIndex + 1 to |replies|
      invariant index == lastNonAckIndex + 1
    {
      if ack(Trim(replies[index])) {
        return true;
      }
    }
    return false;
  }

  // ----- Normal form

  predicate Comparable(a: string, b: string) { a <= b || b <= a }

  /** Neighbours that the capture would have merged. */
  predicate Merges(ack: string -> bool, a: string, b: string) {
    !IsAck(ack, a) && !IsAck(ack, b) && Comparable(Trim(a), Trim(b))
  }

  ghost predicate NormalForm(ack: string -> bool, replies: seq<string>) {
    && (forall r :: r in replies ==> Trim(r) != "")
    && (forall i :: 0 <= i < |replies| - 1 ==> !Merges(ack, replies[i], replies[i + 1]))
  }

  /** Two prefixes of one text are prefixes of each other. */
  lemma PrefixesCompare(a: string, b: string, whole: string)
    requires a <= whole && b <= whole
    ensures Comparable(a, b)
  {
    if |a| <= |b| {
      assert a == b[..|a|];
    } else {
      assert b == a[..|b|];
    }
  }

  /** What the last entry did not merge with, an extension of the last entry does not merge with either. */
  lemma ExtensionStaysApart(ack: string -> bool, before: string, previous: string, next: string)
    requires !IsAck(ack, previous) && Trim(previous) <= Trim(next) && !Merges(ack, before, previous)
    ensures !Merges(ack, before, next)
  {
    if Trim(before) <= Trim(next) {
      PrefixesCompare(Trim(before), Trim(previous), Trim(next));
    } else if Trim(next) <= Trim(before) {
      assert Trim(previous) <= Trim(before);
    }
  }

  lemma NormalSplit(ack: string -> bool, front: seq<string>, next: string)
    requires NormalForm(ack, front + [next])
    ensures NormalForm(ack, front) && Trim(next) != "" && (front != [] ==> !Merges(ack, front[|front| - 1], next))
  {
    var replies := front + [next];
    forall i | 0 <= i < |front| ensures replies[i] == front[i] && front[i] in replies {}
    assert replies[|front|] == next && next in replies;
    forall i | 0 <= i < |front| - 1 ensures !Merges(ack, front[i], front[i + 1]) {
      assert !Merges(ack, replies[i], replies[i + 1]);
    }
    assert front != [] ==> !Merges(ack, replies[|front| - 1], replies[|front|]);
  }

  lemma NormalJoin(ack: string -> bool, front: seq<string>, next: string)
    requires NormalForm(ack, front) && Trim(next) != "" && (front != [] ==> !Merges(ack, front[|front| - 1], next))
    ensures NormalForm(ack, front + [next])
  {
  }

  lemma {:induction false} AppendKeepsNormalForm(ack: string -> bool, existing: seq<string>, nextReply: string)
    requires NormalForm(ack, existing)
    ensures NormalForm(ack, Append(ack, existing, nextReply))
  {
    var updated := Append(ack, existing, nextReply);
    if updated == existing {
    } else if updated == existing + [nextReply] {
      NormalJoin(ack, existing, nextReply);
    } else {
      var front, last := existing[..|existing| - 1], existing[|existing| - 1];
      assert existing == front + [last];
      ExtensionIsNormal(ack, front, last, nextReply);
    }
  }

  lemma ExtensionIsNormal(ack: string -> bool, front: seq<string>, last: string, next: string)
    requires NormalForm(ack, front + [last]) && !IsAck(ack, last) && Trim(next) != "" && Trim(last) <= Trim(next)
    ensures NormalForm(ack, front + [next])
  {
    NormalSplit(ack, front, last);
    if front != [] {
      ExtensionStaysApart(ack, front[|front| - 1], last, next);
    }
    NormalJoin(ack, front, next);
  }

  lemma {:induction false} CoalesceIsNormal(ack: string -> bool, stream: seq<string>)
    ensures NormalForm(ack, Coalesce(ack, stream))
  {
    if stream != [] {
      CoalesceIsNormal(ack, stream[..|stream| - 1]);
      AppendKeepsNormalForm(ack, Coalesce(ack, stream[..|stream| - 1]), stream[|stream| - 1]);
    }
  }

  /** Coalescing leaves alone exactly the streams in normal form. */
  lemma {:induction false} NormalFormsAreFixed(ack: string -> bool, stream: seq<string>)
    ensures Coalesce(ack, stream) == stream <==> NormalForm(ack, stream)
  {
    if NormalForm(ack, stream) {
      NormalIsFixed(ack, stream);
    } else {
      CoalesceIsNormal(ack, stream);
    }
  }

  lemma AppendUnmerged(ack: string -> bool, existing: seq<string>, next: string)
    requires Trim(next) != "" && (existing != [] ==> !Merges(ack, existing[|existing| - 1], next))
    ensures Append(ack, existing, next) == existing + [next]
  {
  }

  lemma {:induction false} NormalIsFixed(ack: string -> bool, stream: seq<string>)
    requires NormalForm(ack, stream)
    ensures Coalesce(ack, stream) == stream
  {
    if stream != [] {
      var front, next := stream[..|stream| - 1], stream[|stream| - 1];
      assert stream == front + [next];
      NormalSplit(ack, front, next);
      NormalIsFixed(ack, front);
      AppendUnmerged(ack, front, next);
    }
  }

  lemma {:induction false} CoalesceIdempotent(ack: string -> bool, stream: seq<string>)
    ensures Coalesce(ack, Coalesce(ack, stream)) == Coalesce(ack, stream)
  {
    CoalesceIsNormal(ack, stream);
    NormalIsFixed(ack, Coalesce(ack, stream));
  }

  // ----- What the capture keeps

  /** `part` is what remains of `whole` after leaving entries out. */
  predicate Subsequence(part: seq<string>, whole: seq<string>) {
    part == []
    || (whole != []
        && (Subsequence(part, whole[..|whole| - 1])
            || (part[|part| - 1] == whole[|whole| - 1] && Subsequence(part[..|part| - 1], whole[..|whole| - 1]))))
  }

  lemma {:induction false} ShorterSubsequence(part: seq<string>, whole: seq<string>)
    requires part != [] && Subsequence(part, whole)
    ensures Subsequence(part[..|part| - 1], whole)
  {
    if Subsequence(part, whole[..|whole| - 1]) {
      ShorterSubsequence(part, whole[..|whole| - 1]);
    }
  }

  /** Every captured entry was observed, in this order. */
  lemma {:induction false} CoalesceIsSubsequence(ack: string -> bool, stream: seq<string>)
    ensures Subsequence(Coalesce(ack, stream), stream)
  {
    if stream != [] {
      var front := stream[..|stream| - 1];
      CoalesceIsSubsequence(ack, front);
      var existing, updated := Coalesce(ack, front), Coalesce(ack, stream);
      if updated != existing {
        var kept := updated[..|updated| - 1];
        if existing != [] && kept != existing {
          ShorterSubsequence(existing, front);
        }
        assert kept == existing || (existing != [] && kept == existing[..|existing| - 1]);
      }
    }
  }

  lemma OnlyAfter(ack: string -> bool, replies: seq<string>, next: string)
    ensures Only(ack, replies + [next], true) == Only(ack, replies, true) + (if IsAck(ack, next) then [next] else [])
  {
    assert (replies + [next])[..|replies|] == replies;
  }

  lemma AppendAcks(ack: string -> bool, existing: seq<string>, next: string)
    requires !ack("")
    ensures Only(ack, Append(ack, existing, next), true)
         == Only(ack, existing, true) + (if IsAck(ack, next) then [next] else [])
  {
    if Trim(next) == "" {
    } else if existing != [] && Merges(ack, existing[|existing| - 1], next) {
      var front, last := existing[..|existing| - 1], existing[|existing| - 1];
      assert existing == front + [last];
      AppendMerged(ack, existing, next);
      OnlyAfter(ack, front, last);
      OnlyAfter(ack, front, next);
    } else {
      AppendUnmerged(ack, existing, next);
      OnlyAfter(ack, existing, next);
    }
  }

  /** No acknowledgement is merged, dropped or moved past another. */
  lemma {:induction false} AcksSurvive(ack: string -> bool, stream: seq<string>)
    requires !ack("")
    ensures Only(ack, Coalesce(ack, stream), true) == Only(ack, stream, true)
    ensures CountAckReplies(ack, Coalesce(ack, stream)) == CountAckReplies(ack, stream)
  {
    if stream != [] {
      AcksSurvive(ack, stream[..|stream| - 1]);
      AppendAcks(ack, Coalesce(ack, stream[..|stream| - 1]), stream[|stream| - 1]);
    }
  }

  lemma {:induction false} NonBlankFinal(ack: string -> bool, replies: seq<string>)
    ensures SelectFinalReply(ack, replies).Some? ==> SelectFinalReply(ack, replies).value in replies
    ensures SelectFinalReply(ack, replies).None? <==> forall r :: r in replies ==> IsAck(ack, r)
  {
    if replies != [] {
      var front := replies[..|replies| - 1];
      NonBlankFinal(ack, front);
      assert replies == front + [replies[|replies| - 1]];
    }
  }

  /** The replies that are not blank, in order. */
  function NonBlank(stream: seq<string>): seq<string> {
    if stream == [] then []
    else NonBlank(stream[..|stream| - 1]) + (if Trim(stream[|stream| - 1]) != "" then [stream[|stream| - 1]] else [])
  }

  /** A reply that is no acknowledgement is selected when it comes last; an acknowledgement changes no selection. */
  lemma FinalAfter(ack: string -> bool, replies: seq<string>, next: string)
    ensures SelectFinalReply(ack, replies + [next])
         == if IsAck(ack, next) then SelectFinalReply(ack, replies) else Some(next)
  {
    assert (replies + [next])[..|replies|] == replies;
  }

  /** The capture of a non-blank reply ends with an entry of its kind that extends it. */
  lemma AppendEnds(ack: string -> bool, existing: seq<string>, next: string)
    requires Trim(next) != ""
    ensures var updated := Append(ack, existing, next);
            && updated != []
            && IsAck(ack, updated[|updated| - 1]) == IsAck(ack, next)
            && Trim(next) <= Trim(updated[|updated| - 1])
            && (IsAck(ack, next) ==> updated == existing + [next])
  {
  }

  lemma AppendFinal(ack: string -> bool, existing: seq<string>, next: string)
    requires Trim(next) != ""
    ensures var final := SelectFinalReply(ack, Append(ack, existing, next));
            if IsAck(ack, next) then final == SelectFinalReply(ack, existing)
            else final.Some? && Trim(next) <= Trim(final.value)
  {
    AppendEnds(ack, existing, next);
    var updated := Append(ack, existing, next);
    var front, last := updated[..|updated| - 1], updated[|updated| - 1];
    assert updated == front + [last];
    FinalAfter(ack, front, last);
    FinalAfter(ack, existing, next);
  }

  /** A final reply is selected exactly when the stream had one, and it extends the last one the stream had. */
  lemma {:induction false} FinalReplyExtendsLast(ack: string -> bool, stream: seq<string>)
    ensures var last, final := SelectFinalReply(ack, NonBlank(stream)), SelectFinalReply(ack, Coalesce(ack, stream));
            && (last.Some? <==> final.Some?)
            && (last.Some? ==> Trim(last.value) <= Trim(final.value))
  {
    if stream != [] {
      var front, next := stream[..|stream| - 1], stream[|stream| - 1];
      FinalReplyExtendsLast(ack, front);
      if Trim(next) != "" {
        FinalAfter(ack, NonBlank(front), next);
        AppendFinal(ack, Coalesce(ack, front), next);
      } else {
        assert NonBlank(stream) == NonBlank(front);
      }
    }
  }

  /** The two lists are both empty, or end with replies of one kind. */
  ghost predicate EndAlike(ack: string -> bool, seen: seq<string>, kept: seq<string>) {
    && (seen == [] <==> kept == [])
    && (seen != [] ==> IsAck(ack, seen[|seen| - 1]) == IsAck(ack, kept[|kept| - 1]))
  }

  lemma AppendEndsAlike(ack: string -> bool, seen: seq<string>, kept: seq<string>, next: string)
    requires Trim(next) != ""
    ensures EndAlike(ack, seen + [next], Append(ack, kept, next))
  {
    AppendEnds(ack, kept, next);
  }

  lemma {:induction false} LastKindSurvives(ack: string -> bool, stream: seq<string>)
    ensures EndAlike(ack, NonBlank(stream), Coalesce(ack, stream))
  {
    if stream != [] {
      var front, next := stream[..|stream| - 1], stream[|stream| - 1];
      LastKindSurvives(ack, front);
      if Trim(next) != "" {
        AppendEndsAlike(ack, NonBlank(front), Coalesce(ack, front), next);
      } else {
        assert NonBlank(stream) == NonBlank(front);
      }
    }
  }

  /** Ordering drift shows in the capture exactly when it was in the stream. */
  lemma {:induction false} DriftSurvives(ack: string -> bool, stream: seq<string>)
    ensures Drifts(ack, Coalesce(ack, stream)) <==> Drifts(ack, NonBlank(stream))
  {
    LastKindSurvives(ack, stream);
    FinalReplyExtendsLast(ack, stream);
    NonBlankFinal(ack, NonBlank(stream));
    NonBlankFinal(ack, Coalesce(ack, stream));
  }

  /** A stream of growing fragments of one reply is captured as its last state. */
  lemma {:induction false} GrowingStreamCollapses(ack: string -> bool, stream: seq<string>)
    requires stream != [] && forall r :: r in stream ==> Trim(r) != "" && !IsAck(ack, r)
    requires forall i :: 0 <= i < |stream| - 1 ==> Trim(stream[i]) <= Trim(stream[i + 1])
    ensures |Coalesce(ack, stream)| == 1 && Trim(Coalesce(ack, stream)[0]) == Trim(stream[|stream| - 1])
  {
    var front, next := stream[..|stream| - 1], stream[|stream| - 1];
    assert next in stream;
    if front != [] {
      assert forall i :: 0 <= i < |front| ==> front[i] == stream[i];
      assert Trim(stream[|stream| - 2]) <= Trim(next) && stream[|stream| - 2] in stream;
      GrowingStreamCollapses(ack, front);
      GrownFragment(ack, Coalesce(ack, front), stream[|stream| - 2], next);
    }
  }

  lemma GrownFragment(ack: string -> bool, kept: seq<string>, last: string, next: string)
    requires |kept| == 1 && Trim(kept[0]) == Trim(last) && !IsAck(ack, last) && !IsAck(ack, next)
    requires Trim(next) != "" && Trim(last) <= Trim(next)
    ensures |Append(ack, kept, next)| == 1 && Trim(Append(ack, kept, next)[0]) == Trim(next)
  {
    assert kept == [kept[0]];
  }

  // ----- What the capture is

  /** The replies are fragments of one reply, or a single one, and `entry` is the first longest of them. */
  ghost predicate IsRun(ack: string -> bool, run: seq<string>, entry: string) {
    && (|run| > 1 ==> forall r :: r in run ==> !IsAck(ack, r))
    && (forall r :: r in run ==> Trim(r) <= Trim(entry))
    && exists m :: 0 <= m < |run| && run[m] == entry && forall r :: r in run[..m] ==> Trim(r) != Trim(entry)
  }

  /** The replies fall into consecutive runs, one for each entry, and no run could have taken in the next reply. */
  ghost predicate Captures(ack: string -> bool, seen: seq<string>, kept: seq<string>)
    decreases |kept|
  {
    if kept == [] then seen == []
    else exists lo :: 0 <= lo < |seen| && LastRun(ack, seen, kept, lo) && Captures(ack, seen[..lo], kept[..|kept| - 1])
  }

  ghost predicate LastRun(ack: string -> bool, seen: seq<string>, kept: seq<string>, lo: nat)
    requires kept != [] && lo < |seen|
  {
    IsRun(ack, seen[lo..], kept[|kept| - 1]) && (|kept| > 1 ==> !Merges(ack, kept[|kept| - 2], seen[lo]))
  }

  /** A run takes in a reply that its entry extends, or that extends its entry. */
  lemma RunGrows(ack: string -> bool, run: seq<string>, entry: string, next: string)
    requires IsRun(ack, run, entry) && Merges(ack, entry, next)
    ensures IsRun(ack, run + [next], if Trim(next) <= Trim(entry) then entry else next)
  {
    var m :| 0 <= m < |run| && run[m] == entry && forall r :: r in run[..m] ==> Trim(r) != Trim(entry);
    var more, n := run + [next], |run|;
    assert more[..m] == run[..m] && more[..n] == run && more[m] == entry && more[n] == next;
    if !(Trim(next) <= Trim(entry)) {
      forall r | r in run ensures Trim(r) <= Trim(next) && Trim(r) != Trim(next) {
        assert Trim(r) <= Trim(entry) <= Trim(next);
      }
    }
  }

  lemma CaptureEnds(ack: string -> bool, earlier: seq<string>, run: seq<string>, front: seq<string>, entry: string)
    requires Captures(ack, earlier, front) && IsRun(ack, run, entry)
    requires front != [] ==> !Merges(ack, front[|front| - 1], run[0])
    ensures Captures(ack, earlier + run, front + [entry])
  {
    var seen, kept, lo := earlier + run, front + [entry], |earlier|;
    assert seen[lo..] == run && seen[..lo] == earlier && kept[..|kept| - 1] == front;
    assert front != [] ==> kept[|kept| - 2] == front[|front| - 1];
    assert seen[lo] == run[0] && kept[|kept| - 1] == entry;
    CaptureOfLast(ack, seen, kept, lo);
  }

  lemma CaptureOfLast(ack: string -> bool, seen: seq<string>, kept: seq<string>, lo: nat)
    requires kept != [] && lo < |seen| && LastRun(ack, seen, kept, lo)
    requires Captures(ack, seen[..lo], kept[..|kept| - 1])
    ensures Captures(ack, seen, kept)
  {
  }

  lemma CaptureStarts(ack: string -> bool, seen: seq<string>, kept: seq<string>, next: string)
    requires Captures(ack, seen, kept) && (kept != [] ==> !Merges(ack, kept[|kept| - 1], next))
    ensures Captures(ack, seen + [next], kept + [next])
  {
    assert [next][..0] == [] && [next][0] == next;
    CaptureEnds(ack, seen, [next], kept, next);
  }

  lemma LastOfCapture(ack: string -> bool, seen: seq<string>, kept: seq<string>)
    returns (earlier: seq<string>, run: seq<string>)
    requires Captures(ack, seen, kept) && kept != []
    ensures seen == earlier + run && run != []
    ensures Captures(ack, earlier, kept[..|kept| - 1]) && IsRun(ack, run, kept[|kept| - 1])
    ensures |kept| > 1 ==> !Merges(ack, kept[|kept| - 2], run[0])
  {
    var lo :| 0 <= lo < |seen| && LastRun(ack, seen, kept, lo) && Captures(ack, seen[..lo], kept[..|kept| - 1]);
    earlier, run := seen[..lo], seen[lo..];
  }

  lemma CaptureGrows(ack: string -> bool, seen: seq<string>, front: seq<string>, last: string, next: string)
    requires Captures(ack, seen, front + [last]) && Merges(ack, last, next)
    ensures Captures(ack, seen + [next], front + [if Trim(next) <= Trim(last) then last else next])
  {
    var kept := front + [last];
    var earlier, run := LastOfCapture(ack, seen, kept);
    assert kept[..|kept| - 1] == front && (front != [] ==> kept[|kept| - 2] == front[|front| - 1]);
    var longer := run + [next];
    assert longer[0] == run[0] && seen + [next] == earlier + longer;
    RunGrows(ack, run, last, next);
    CaptureEnds(ack, earlier, longer, front, if Trim(next) <= Trim(last) then last else next);
  }

  lemma AppendMerged(ack: string -> bool, existing: seq<string>, next: string)
    requires Trim(next) != "" && existing != [] && Merges(ack, existing[|existing| - 1], next)
    ensures var last := existing[|existing| - 1];
            Append(ack, existing, next)
            == existing[..|existing| - 1] + [if Trim(next) <= Trim(last) then last else next]
  {
    var front, last := existing[..|existing| - 1], existing[|existing| - 1];
    assert existing == front + [last];
    assert Trim(next) <= Trim(last) && Trim(last) <= Trim(next) ==> Trim(next) == Trim(last);
  }

  lemma CaptureOfOneMore(ack: string -> bool, seen: seq<string>, kept: seq<string>, next: string)
    requires Captures(ack, seen, kept) && Trim(next) != ""
    ensures Captures(ack, seen + [next], Append(ack, kept, next))
  {
    if kept != [] && Merges(ack, kept[|kept| - 1], next) {
      assert kept == kept[..|kept| - 1] + [kept[|kept| - 1]];
      CaptureGrows(ack, seen, kept[..|kept| - 1], kept[|kept| - 1], next);
      AppendMerged(ack, kept, next);
    } else {
      CaptureStarts(ack, seen, kept, next);
      AppendUnmerged(ack, kept, next);
    }
  }

  /** The capture of a stream: the runs of its replies that are not blank, each as its first longest reply. */
  lemma {:induction false} CapturesRuns(ack: string -> bool, stream: seq<string>)
    ensures Captures(ack, NonBlank(stream), Coalesce(ack, stream))
  {
    if stream != [] {
      var front, next := stream[..|stream| - 1], stream[|stream| - 1];
      CapturesRuns(ack, front);
      if Trim(next) == "" {
        assert NonBlank(stream) == NonBlank(front);
      } else {
        CaptureOfOneMore(ack, NonBlank(front), Coalesce(ack, front), next);
      }
    }
  }

  /** Every reply that is not blank is a fragment of some entry of its kind. */
  lemma {:induction false} NoReplyIsLost(ack: string -> bool, stream: seq<string>, r: string)
    requires r in stream && Trim(r) != ""
    ensures exists entry ::
              && entry in Coalesce(ack, stream) && Trim(r) <= Trim(entry)
              && IsAck(ack, entry) == IsAck(ack, r)
  {
    var front, next := stream[..|stream| - 1], stream[|stream| - 1];
    var kept := Coalesce(ack, front);
    if r == next {
      AppendEnds(ack, kept, next);
    } else {
      NoReplyIsLost(ack, front, r);
      var entry :| entry in kept && Trim(r) <= Trim(entry) && IsAck(ack, entry) == IsAck(ack, r);
      AppendKeepsEntry(ack, kept, next, entry);
    }
  }

  lemma AppendKeepsEntry(ack: string -> bool, existing: seq<string>, next: string, entry: string)
    requires entry in existing
    ensures exists e :: e in Append(ack, existing, next) && Trim(entry) <= Trim(e) && IsAck(ack, e) == IsAck(ack, entry)
  {
    var updated := Append(ack, existing, next);
    if entry !in updated {
      assert next in updated && Trim(entry) <= Trim(next);
    }
  }
}
