/** What becomes of an old comment, and what stands between a new comment and the function it is for. */
module CommentPlaces {
  import opened Options
  import opened SyntaxTree
  import opened Splice
  import opened SharedStarts
  import opened JsDocVisitor
  import opened JsDocEdits
  import opened CommentText

  predicate Edited(file: File, t: Target) {
    IsMissing(t) || NeedsRewrite(file)(t)
  }

  ghost predicate Rewritten(file: File, root: Node, t: Target) {
    t in Targets(file, root) && NeedsRewrite(file)(t)
  }

  lemma TargetIsPlaced(file: File, root: Node, t: Target)
    requires WellPlaced(file, root) && t in Targets(file, root)
    ensures TargetPlaced(file.source, t.node) && IsInk(file.source, t.node.start)
    ensures IsInk(file.source, First(t.node)) && First(t.node) <= t.node.start
    ensures EditStart(file, t.node) <= EditEnd(file, t.node) <= t.node.start < |file.source|
  {
    WalkInTextOrder(file, root);
    FirstIsInk(file.source, t.node);
    TargetBounds(file, t);
  }

  // ----- The old comment

  /** A rewrite removes the old comment to its end exactly where a line feed stands between that and the function. */
  lemma OldCommentGoes(file: File, root: Node, t: Target)
    requires WellPlaced(file, root) && Rewritten(file, root, t)
    ensures t.node.doc.value.end <= EditEnd(file, t.node)
       <==> LineFeedBetween(file.source, t.node.doc.value.end, t.node.start)
    ensures !LineFeedBetween(file.source, t.node.doc.value.end, t.node.start)
       ==> EditEnd(file, t.node) <= t.node.doc.value.end - 2
  {
    var end := t.node.doc.value.end;
    TargetIsPlaced(file, root, t);
    LineStartBehind(file.source, end, t.node.start);
    LineStartIsLineStart(file.source, t.node.start);
    assert file.source[end - 1] == '/' && file.source[end - 2] == '*';
  }

  ghost predicate IsWhite(c: char) {
    c == ' ' || c == '\t' || c == '\n' || c == '\r'
  }

  /** Of what is not white, a rewrite removes characters of the comment alone. */
  ghost predicate TakesCommentAlone(file: File, t: Target)
    requires t.node.doc.Some?
  {
    forall p ::
      EditStart(file, t.node) <= p < EditEnd(file, t.node) && p < |file.source| && !IsWhite(file.source[p]) ==>
      t.node.doc.value.start <= p < t.node.doc.value.end
  }

  /** Nothing stands before the comment on its line, nor on a line between the comment and its function's. */
  ghost predicate StandsAlone(file: File, t: Target)
    requires t.node.doc.Some?
  {
    var doc := t.node.doc.value;
    && (forall p :: 0 <= p < doc.start && p < |file.source| && !IsWhite(file.source[p]) ==>
          LineFeedBetween(file.source, p, doc.start))
    && (forall p :: doc.end <= p < t.node.start && p < |file.source| && !IsWhite(file.source[p]) ==>
          !LineFeedBetween(file.source, p, t.node.start))
  }

  /**
   Anything else there goes with the comment, as an ordinary comment on a line of its own does.  Where all is on one
   line nothing goes.
   */
  lemma TakesCommentAloneMeaning(file: File, root: Node, t: Target)
    requires WellPlaced(file, root) && Rewritten(file, root, t)
    ensures TakesCommentAlone(file, t)
       <==> StandsAlone(file, t) || !LineFeedBetween(file.source, t.node.doc.value.start, t.node.start)
  {
    var source, doc := file.source, t.node.doc.value;
    TargetIsPlaced(file, root, t);
    forall p: nat
      ensures p < EditStart(file, t.node) <==> LineFeedBetween(source, p, doc.start)
      ensures p < EditEnd(file, t.node) <==> LineFeedBetween(source, p, t.node.start)
    {
      LineStartBehind(source, p, doc.start);
      LineStartBehind(source, p, t.node.start);
    }
    LineStartIsLineStart(source, doc.start);
    LineStartIsLineStart(source, t.node.start);
  }

  // ----- What survives

  /** The edits one behind the other in the text. */
  function InText(file: File, root: Node): seq<Edit> {
    InPlace(Edits(file, root))
  }

  function Updated(file: File, root: Node): string {
    ApplyInOrder(file.source, SortDescending(Edits(file, root)))
  }

  lemma UpdatedIsSubstitute(file: File, root: Node)
    requires WellPlaced(file, root) && NoneSwallows(file, Targets(file, root))
    ensures Chain(InText(file, root), 0, |file.source|)
    ensures Updated(file, root) == Substitute(file.source, InText(file, root), 0)
    ensures forall e :: e in InText(file, root) <==> e in Edits(file, root)
  {
    UnswallowedIsSubstituted(file, root);
    InPlaceIsChain(Edits(file, root), |file.source|);
    InPlaceRearranges(Edits(file, root));
  }

  /** How far the character at `p` is moved. */
  function Moved(file: File, root: Node, p: nat): int {
    Shift(InText(file, root), p)
  }

  /** The file has the character at `p` of the source, moved by what the edits before it grew. */
  ghost predicate Kept(file: File, root: Node, updated: string, p: nat) {
    KeepsMoved(file.source, updated, p, Moved(file, root, p))
  }

  lemma OutsideIsKept(file: File, root: Node, p: nat)
    requires WellPlaced(file, root) && NoneSwallows(file, Targets(file, root))
    requires p < |file.source| && Outside(Edits(file, root), p)
    ensures Kept(file, root, Updated(file, root), p)
  {
    UpdatedIsSubstitute(file, root);
    SubstituteKeeps(file.source, InText(file, root), p);
  }

  lemma SubstituteKeeps(source: string, edits: seq<Edit>, p: nat)
    requires Chain(edits, 0, |source|) && p < |source| && Outside(edits, p)
    ensures KeepsMoved(source, Substitute(source, edits, 0), p, Shift(edits, p))
  {
    OutsideSurvives(source, edits, 0, p);
  }

  /** Every edit ends before the line of a target's token, or begins behind the token. */
  lemma {:induction false} EditMissesLineHead(file: File, root: Node, t: Target, e: Edit)
    requires WellPlaced(file, root) && NoneSwallows(file, Targets(file, root))
    requires t in Targets(file, root) && e in Edits(file, root)
    ensures e.end <= EditEnd(file, t.node) || t.node.start < e.start
  {
    var ts := Targets(file, root);
    WalkInTextOrder(file, root);
    var i :| 0 <= i < |ts| && ts[i] == t;
    var k :| 0 <= k < |Edits(file, root)| && Edits(file, root)[k] == e;
    UnswallowedIsOutside(file, ts, i, k);
    var j := EditPositions(file, ts, k);
    LineStartIsLineStart(file.source, t.node.start);
    TargetIsPlaced(file, root, ts[j]);
    LineStartIsLineStart(file.source, ts[j].node.start);
  }

  lemma {:induction false} LineHeadIsMissed(file: File, root: Node, t: Target, p: nat)
    requires WellPlaced(file, root) && NoneSwallows(file, Targets(file, root)) && t in Targets(file, root)
    requires EditEnd(file, t.node) <= p <= t.node.start
    ensures Outside(Edits(file, root), p)
    ensures forall e :: e in InText(file, root) ==> (e.end <= p <==> e.end <= t.node.start)
  {
    UpdatedIsSubstitute(file, root);
    EditsAreChain(file, root);
    ChainBounds(Edits(file, root), 0, |file.source|);
    forall e | e in Edits(file, root) ensures e.end <= EditEnd(file, t.node) || t.node.start < e.start {
      EditMissesLineHead(file, root, t, e);
    }
  }

  /** What stands on the line of a target's token up to the token survives, and is moved as the token is. */
  lemma {:induction false} LineHeadSurvives(file: File, root: Node, t: Target, p: nat)
    requires WellPlaced(file, root) && NoneSwallows(file, Targets(file, root)) && t in Targets(file, root)
    requires EditEnd(file, t.node) <= p <= t.node.start
    ensures Outside(Edits(file, root), p)
    ensures KeepsMoved(file.source, Updated(file, root), p, Moved(file, root, t.node.start))
  {
    TargetIsPlaced(file, root, t);
    LineHeadIsMissed(file, root, t, p);
    OutsideIsKept(file, root, p);
    SameShift(InText(file, root), p, t.node.start);
  }

  /** The characters from `from` up to the token at `start` are those of the source, moved by `d`. */
  ghost predicate HoldsUpTo(source: string, updated: string, from: nat, start: nat, d: int) {
    forall p :: from <= p < start && p < |source| ==> source[p] != '\n' && KeepsMoved(source, updated, p, d)
  }

  lemma {:induction false} LineHeadIsHeld(file: File, root: Node, t: Target)
    requires WellPlaced(file, root) && NoneSwallows(file, Targets(file, root)) && t in Targets(file, root)
    ensures HoldsUpTo(file.source, Updated(file, root), EditEnd(file, t.node), t.node.start,
                      Moved(file, root, t.node.start))
  {
    TargetIsPlaced(file, root, t);
    LineStartIsLineStart(file.source, t.node.start);
    forall p | EditEnd(file, t.node) <= p < t.node.start
      ensures KeepsMoved(file.source, Updated(file, root), p, Moved(file, root, t.node.start))
    {
      LineHeadSurvives(file, root, t, p);
    }
  }

  /** The closing pair of the old comment is still in the file, as far before the function's token as it was. */
  ghost predicate LeavesCloser(file: File, root: Node, updated: string, t: Target)
    requires t.node.doc.Some?
  {
    exists i :: i == t.node.doc.value.end - 2 + Moved(file, root, t.node.start) && ClosesAt(updated, i)
  }

  /** So it is where no line feed stands between the old comment and the function. */
  lemma {:induction false} CloserStays(file: File, root: Node, t: Target)
    requires WellPlaced(file, root) && NoneSwallows(file, Targets(file, root)) && Rewritten(file, root, t)
    requires !LineFeedBetween(file.source, t.node.doc.value.end, t.node.start)
    ensures LeavesCloser(file, root, Updated(file, root), t)
  {
    TargetIsPlaced(file, root, t);
    OldCommentGoes(file, root, t);
    LineHeadIsHeld(file, root, t);
    HeldCloser(file.source, Updated(file, root), EditEnd(file, t.node), t.node.start, t.node.doc.value,
               Moved(file, root, t.node.start));
  }

  lemma HeldCloser(source: string, updated: string, from: nat, start: nat, doc: Span, d: int)
    requires HoldsUpTo(source, updated, from, start, d)
    requires IsComment(source, doc) && from <= doc.end - 2 && doc.end <= start
    ensures ClosesAt(updated, doc.end - 2 + d)
  {
    assert KeepsMoved(source, updated, doc.end - 2, d) && KeepsMoved(source, updated, doc.end - 1, d);
  }

  // ----- The new comment

  /** The token of every function that gets a new comment begins its line. */
  ghost predicate EditedBeginLines(file: File, root: Node) {
    forall t :: t in Targets(file, root) && Edited(file, t) ==> BeginsLine(file.source, t.node.start)
  }

  /** The text stands before the position, with only blanks between. */
  ghost predicate StandsBefore(s: string, text: string, q: int) {
    exists m :: 0 <= m <= q && EndsAt(s, text, m) && OnlyBlanks(s, m, q)
  }

  /** The function's token is there, and the new comment right before it. */
  ghost predicate Attached(file: File, root: Node, updated: string, t: Target)
    requires IsFunctionTarget(t.node)
  {
    var d := Moved(file, root, t.node.start);
    KeepsMoved(file.source, updated, t.node.start, d) && StandsBefore(updated, Comment(file, t), t.node.start + d)
  }

  ghost predicate AllAttached(file: File, root: Node, updated: string) {
    forall t :: t in Targets(file, root) && Edited(file, t) ==> Attached(file, root, updated, t)
  }

  /** The index of a target's own edit. */
  lemma {:induction false} EmittedAt(file: File, ts: seq<Target>, i: nat) returns (k: nat)
    requires AllTargets(ts) && i < |ts| && Edited(file, ts[i])
    ensures k < |EmitAll(file, ts)| && [EmitAll(file, ts)[k]] == OwnEdits(file, ts[i])
    ensures |EmitAll(file, ts[..i])| == k
  {
    k := |EmitAll(file, ts[..i])|;
    assert ts == ts[..i] + ([ts[i]] + ts[i + 1..]);
    EmitAllConcat(file, ts[..i], [ts[i]] + ts[i + 1..]);
    EmitAllConcat(file, [ts[i]], ts[i + 1..]);
    EmitOne(file, ts[i]);
  }

  /** Two tokens that begin one line are the same. */
  lemma OneTokenBeginsLine(s: string, p: nat, q: nat)
    requires IsInk(s, p) && IsInk(s, q) && ReadLineStartIndex(s, p) == ReadLineStartIndex(s, q)
    requires BeginsLine(s, p) && BeginsLine(s, q)
    ensures p == q
  {
    BeginsLineMeaning(s, p);
    BeginsLineMeaning(s, q);
    LineStartIsLineStart(s, p);
    LineStartIsLineStart(s, q);
  }

  /** The edits after a target's own begin behind its token. */
  lemma {:induction false} NextEditIsBehind(file: File, root: Node, i: nat, k: nat, l: nat)
    requires WellPlaced(file, root) && NoneSwallows(file, Targets(file, root)) && EditedBeginLines(file, root)
    requires i < |Targets(file, root)| && Edited(file, Targets(file, root)[i])
    requires |EmitAll(file, Targets(file, root)[..i])| == k < l < |Edits(file, root)|
    requires Edits(file, root)[k].end == EditEnd(file, Targets(file, root)[i].node)
    ensures Targets(file, root)[i].node.start < Edits(file, root)[l].start
  {
    var ts, edits := Targets(file, root), Edits(file, root);
    WalkInTextOrder(file, root);
    var j := EditPositions(file, ts, l);
    LaterOrigin(file, ts, i, j, k, l);
    EditsAreChain(file, root);
    ChainOrder(edits, 0, |file.source|, k, l);
    assert ts[i] in ts && ts[j] in ts && edits[l] in edits;
    EditMissesLineHead(file, root, ts[i], edits[l]);
    if edits[l].end <= EditEnd(file, ts[i].node) {
      OneTokenBeginsLine(file.source, ts[i].node.start, ts[j].node.start);
      LaterToken(file, ts, i, j);
    }
  }

  lemma {:induction false} EditsAscendByTokens(file: File, root: Node)
    requires WellPlaced(file, root) && NoneSwallows(file, Targets(file, root)) && EditedBeginLines(file, root)
    ensures StrictlyAscending(Edits(file, root)) && InPlace(Edits(file, root)) == Edits(file, root)
  {
    var ts, edits := Targets(file, root), Edits(file, root);
    WalkInTextOrder(file, root);
    forall k, l | 0 <= k < l < |edits| ensures edits[k].start < edits[l].start {
      var i := EditPositions(file, ts, k);
      NextEditIsBehind(file, root, i, k, l);
    }
    SortReverses(edits);
  }

  /** The line of the function's token stands right behind the comment. */
  ghost predicate LineBehindComment(file: File, root: Node, updated: string, t: Target)
    requires IsFunctionTarget(t.node)
  {
    HoldsBehind(file.source, updated, Comment(file, t), EditEnd(file, t.node), t.node.start,
                Moved(file, root, t.node.start))
  }

  lemma {:induction false} LineFollowsComment(file: File, root: Node, i: nat)
    requires WellPlaced(file, root) && NoneSwallows(file, Targets(file, root)) && EditedBeginLines(file, root)
    requires i < |Targets(file, root)| && Edited(file, Targets(file, root)[i])
    ensures LineBehindComment(file, root, Updated(file, root), Targets(file, root)[i])
  {
    var t, edits := Targets(file, root)[i], Edits(file, root);
    var k := EmittedAt(file, Targets(file, root), i);
    assert t in Targets(file, root);
    assert edits[k] == Edit(EditStart(file, t.node), EditEnd(file, t.node), Comment(file, t)) by {
      assert [edits[k]][0] == OwnEdits(file, t)[0];
    }
    TargetIsPlaced(file, root, t);
    if k + 1 < |edits| {
      NextEditIsBehind(file, root, i, k, k + 1);
    }
    EditsAscendByTokens(file, root);
    UpdatedIsSubstitute(file, root);
    TextThenSource(file.source, edits, k, t.node.start);
  }

  lemma {:induction false} BeginnerIsAttached(file: File, root: Node, t: Target)
    requires WellPlaced(file, root) && NoneSwallows(file, Targets(file, root)) && EditedBeginLines(file, root)
    requires t in Targets(file, root) && Edited(file, t)
    ensures Attached(file, root, Updated(file, root), t)
  {
    var i :| 0 <= i < |Targets(file, root)| && Targets(file, root)[i] == t;
    LineFollowsComment(file, root, i);
    TargetIsPlaced(file, root, t);
    BeginsLineMeaning(file.source, t.node.start);
    HeldLineIsBlank(file.source, Updated(file, root), Comment(file, t), EditEnd(file, t.node), t.node.start,
                    Moved(file, root, t.node.start));
  }

  lemma HeldLineIsBlank(source: string, updated: string, text: string, from: nat, start: nat, d: int)
    requires HoldsBehind(source, updated, text, from, start, d) && OnlyBlanks(source, from, start)
    ensures KeepsMoved(source, updated, start, d) && StandsBefore(updated, text, start + d)
  {
    forall k | from <= k <= start ensures updated[k + d] == source[k] {
      assert updated[from + d..start + d + 1][k - from] == source[from..start + 1][k - from];
    }
    forall x | from + d <= x < start + d ensures updated[x] == source[x - d] {
      assert updated[(x - d) + d] == source[x - d];
    }
    assert updated[start + d] == source[start];
    assert EndsAt(updated, text, from + d) && OnlyBlanks(updated, from + d, start + d);
  }

  predicate EndsInLineFeed(text: string) {
    text != "" && text[|text| - 1] == '\n'
  }

  /** Every new comment ends its line. */
  ghost predicate CommentsEndLines(file: File, root: Node) {
    forall t :: t in Targets(file, root) ==> EndsInLineFeed(Comment(file, t))
  }

  lemma BlanksOfLine(source: string, updated: string, text: string, from: nat, start: nat, d: int)
    requires from <= start <= |source| && start + d <= |updated| && HoldsUpTo(source, updated, from, start, d)
    requires EndsInLineFeed(text) && StandsBefore(updated, text, start + d)
    ensures OnlyBlanks(source, from, start)
  {
    var m :| 0 <= m <= start + d && EndsAt(updated, text, m) && OnlyBlanks(updated, m, start + d);
    assert updated[m - |text|..m][|text| - 1] == text[|text| - 1];
    forall x | from + d <= x < start + d ensures 0 <= x && updated[x] == source[x - d] != '\n' {
      assert KeepsMoved(source, updated, x - d, d);
    }
    forall p | from <= p < start ensures source[p] == ' ' || source[p] == '\t' {
      assert KeepsMoved(source, updated, p, d);
    }
  }

  lemma {:induction false} AttachedBegins(file: File, root: Node, t: Target)
    requires WellPlaced(file, root) && NoneSwallows(file, Targets(file, root)) && CommentsEndLines(file, root)
    requires t in Targets(file, root) && Attached(file, root, Updated(file, root), t)
    ensures BeginsLine(file.source, t.node.start)
  {
    TargetIsPlaced(file, root, t);
    LineHeadIsHeld(file, root, t);
    BlanksOfLine(file.source, Updated(file, root), Comment(file, t), EditEnd(file, t.node), t.node.start,
                 Moved(file, root, t.node.start));
    BeginsLineMeaning(file.source, t.node.start);
  }

  lemma {:induction false} BeginnersAreAttached(file: File, root: Node)
    requires WellPlaced(file, root) && NoneSwallows(file, Targets(file, root)) && EditedBeginLines(file, root)
    ensures AllAttached(file, root, Updated(file, root))
  {
    forall t | t in Targets(file, root) && Edited(file, t) ensures Attached(file, root, Updated(file, root), t) {
      BeginnerIsAttached(file, root, t);
    }
  }

  /**
   Where no comment swallows a token, every new comment stands right before its function exactly where every function
   that gets one begins its line.
   */
  lemma CommentsAttach(file: File, root: Node)
    requires WellPlaced(file, root) && NoneSwallows(file, Targets(file, root)) && CommentsEndLines(file, root)
    ensures AllAttached(file, root, Updated(file, root)) <==> EditedBeginLines(file, root)
  {
    if EditedBeginLines(file, root) {
      BeginnersAreAttached(file, root);
    }
    if AllAttached(file, root, Updated(file, root)) {
      forall t | t in Targets(file, root) && Edited(file, t) ensures BeginsLine(file.source, t.node.start) {
        AttachedBegins(file, root, t);
      }
    }
  }
}
