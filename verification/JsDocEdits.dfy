/** The order of the edits that the walk emits, and the rewritten file. */
module JsDocEdits {
  import opened Options
  import opened Seqs
  import opened SyntaxTree
  import opened Splice
  import opened SharedStarts
  import opened JsDocVisitor

  // ----- What the parser guarantees of a tree

  /** A character that is neither a blank nor a line feed, as the first of any token or comment is. */
  ghost predicate IsInk(s: string, p: nat) {
    p < |s| && s[p] != ' ' && s[p] != '\t' && s[p] != '\n'
  }

  predicate IsBreak(c: char) {
    c == '\n' || c == '\r'
  }

  ghost predicate BreakBetween(s: string, from: nat, to: nat) {
    exists k :: from <= k < to && k < |s| && IsBreak(s[k])
  }

  /** The only line break that the line search knows is the line feed. */
  ghost predicate LineFeedBetween(s: string, from: nat, to: nat) {
    exists k :: from <= k < to && k < |s| && s[k] == '\n'
  }

  ghost predicate OnlyBlanks(s: string, from: nat, to: nat) {
    forall k :: from <= k < to && k < |s| ==> s[k] == ' ' || s[k] == '\t'
  }

  ghost predicate IsLineStart(s: string, k: nat) {
    k <= |s| && (k == 0 || s[k - 1] == '\n')
  }

  /** Only blanks stand before `p` on its line. */
  ghost predicate BeginsLine(s: string, p: nat) {
    exists k :: 0 <= k <= p && IsLineStart(s, k) && OnlyBlanks(s, k, p)
  }

  lemma {:induction false} LastNewlineIsLast(s: string, k: int)
    requires k < |s|
    ensures -1 <= LastNewline(s, k) <= (if k < -1 then -1 else k)
    ensures LastNewline(s, k) >= 0 ==> s[LastNewline(s, k)] == '\n'
    ensures forall i :: LastNewline(s, k) < i <= k ==> s[i] != '\n'
    decreases k + 1
  {
    if k >= 0 && s[k] != '\n' {
      LastNewlineIsLast(s, k - 1);
    }
  }

  /**
   The line start of any position is behind the last line feed before it, or 0 if there is none.  At position 0, the
   character there counts as being before it.
   */
  lemma LineStartMeaning(s: string, p: nat)
    requires p <= |s|
    ensures var r, end := ReadLineStartIndex(s, p), if p == 0 && s != "" then 1 else p;
            && r <= end && (r == 0 || s[r - 1] == '\n')
            && forall k :: r <= k < end ==> s[k] != '\n'
  {
    if s != "" {
      LastNewlineIsLast(s, if p > 0 then p - 1 else 0);
    }
  }

  /** The line start of an ink character is the position after the last line feed before it. */
  lemma LineStartIsLineStart(s: string, p: nat)
    requires IsInk(s, p)
    ensures ReadLineStartIndex(s, p) <= p
    ensures IsLineStart(s, ReadLineStartIndex(s, p))
    ensures forall k :: ReadLineStartIndex(s, p) <= k < p ==> s[k] != '\n'
  {
    LastNewlineIsLast(s, if p > 0 then p - 1 else 0);
  }

  lemma LineStartIs(s: string, p: nat, r: nat)
    requires IsInk(s, p) && r <= p && IsLineStart(s, r) && forall k :: r <= k < p ==> s[k] != '\n'
    ensures ReadLineStartIndex(s, p) == r
  {
    LineStartIsLineStart(s, p);
  }

  /** It lies behind a position exactly where a line feed stands between the two. */
  lemma LineStartBehind(s: string, from: nat, p: nat)
    requires IsInk(s, p)
    ensures from < ReadLineStartIndex(s, p) <==> LineFeedBetween(s, from, p)
  {
    LineStartIsLineStart(s, p);
    if from < ReadLineStartIndex(s, p) {
      assert s[ReadLineStartIndex(s, p) - 1] == '\n';
    }
  }

  /** Only blanks stand between the line start and the character exactly where the character begins its line. */
  lemma BeginsLineMeaning(s: string, p: nat)
    requires IsInk(s, p)
    ensures BeginsLine(s, p) <==> OnlyBlanks(s, ReadLineStartIndex(s, p), p)
  {
    LineStartIsLineStart(s, p);
    if BeginsLine(s, p) {
      var k :| 0 <= k <= p && IsLineStart(s, k) && OnlyBlanks(s, k, p);
      assert k <= ReadLineStartIndex(s, p);
    }
  }

  lemma LineStartMonotone(s: string, p: nat, q: nat)
    requires IsInk(s, p) && IsInk(s, q) && p <= q
    ensures ReadLineStartIndex(s, p) <= ReadLineStartIndex(s, q)
  {
    LineStartIsLineStart(s, p);
    LineStartIsLineStart(s, q);
    var a := ReadLineStartIndex(s, p);
    assert a > 0 ==> s[a - 1] == '\n';
  }

  function EndOf(nodes: seq<Node>, from: nat): nat {
    if nodes == [] then from else nodes[|nodes| - 1].end
  }

  ghost predicate IsComment(s: string, d: Span) {
    && d.start + 4 <= d.end <= |s|
    && s[d.start] == '/' && s[d.start + 1] == '*' && s[d.end - 2] == '*' && s[d.end - 1] == '/'
  }

  /**
   A target's comment stands between the token before it and its own.  The parser attaches only comments that come after
   a line break, or at the very beginning.
   */
  ghost predicate DocPlaced(source: string, pos: nat, doc: Span, start: nat) {
    pos <= doc.start && IsComment(source, doc) && doc.end <= start && (pos > 0 ==> BreakBetween(source, pos, doc.start))
  }

  ghost predicate TargetPlaced(source: string, node: Node) {
    && node.pos <= node.start && IsInk(source, node.start)
    && (node.doc.Some? ==> DocPlaced(source, node.pos, node.doc.value, node.start))
  }

  /**
   The node lies from `from` on in the text, and its children lie in it one behind the other.  The first part of a
   function, as its first modifier, may begin with the function's own token; a function within it comes later.
   */
  ghost predicate Placed(source: string, node: Node, from: nat)
    decreases node, 0
  {
    && from <= node.start + 1 && from <= node.end <= |source|
    && if IsFunctionTarget(node) then
         && from <= node.pos && node.start < node.end
         && TargetPlaced(source, node)
         && AllPlaced(source, node.children, node.start + 1)
         && EndOf(node.children, node.start + 1) <= node.end
       else AllPlaced(source, node.children, from) && EndOf(node.children, from) <= node.end
  }

  ghost predicate AllPlaced(source: string, nodes: seq<Node>, from: nat)
    decreases nodes, 1
  {
    nodes != [] ==>
      && AllPlaced(source, nodes[..|nodes| - 1], from)
      && Placed(source, nodes[|nodes| - 1], EndOf(nodes[..|nodes| - 1], from))
  }

  ghost predicate WellPlaced(file: File, root: Node) {
    Placed(file.source, root, 0)
  }

  // ----- The walk follows the text

  /** The later target comes behind the earlier one's token. */
  predicate Follows(earlier: Target, later: Target) {
    earlier.node.start < later.node.pos
  }

  ghost predicate InTextOrder(file: File, ts: seq<Target>) {
    && (forall t :: t in ts ==> TargetPlaced(file.source, t.node))
    && (forall i, j :: 0 <= i < j < |ts| ==> Follows(ts[i], ts[j]))
  }

  /** The tokens before the targets end from `from` on, and their own begin before `to`. */
  ghost predicate Between(ts: seq<Target>, from: nat, to: nat) {
    forall t :: t in ts ==> from <= t.node.pos && t.node.start < to
  }

  lemma OrderConcat(file: File, a: seq<Target>, b: seq<Target>, from: nat, mid: nat, to: nat)
    requires from <= mid <= to
    requires InTextOrder(file, a) && Between(a, from, mid)
    requires InTextOrder(file, b) && Between(b, mid, to)
    ensures InTextOrder(file, a + b) && Between(a + b, from, to)
  {
    forall i, j | 0 <= i < |a| <= j < |a| + |b| ensures Follows((a + b)[i], (a + b)[j]) {
      assert a[i] in a && b[j - |a|] in b;
    }
  }

  lemma {:induction false} WalkFollows(file: File, node: Node, innermost: Option<string>, from: nat)
    requires Placed(file.source, node, from)
    ensures InTextOrder(file, TargetsOf(file, node, innermost))
    ensures Between(TargetsOf(file, node, innermost), from, node.end)
    decreases node, 0
  {
    if node.kind.ClassDeclaration? {
      WalkFollowsAll(file, node.children, Some(ClassName(file, node)), from);
    } else if IsFunctionTarget(node) {
      WalkFollowsAll(file, node.children, innermost, node.start + 1);
      OrderConcat(file, [Target(node, innermost)], TargetsOfAll(file, node.children, innermost),
                  from, node.start + 1, node.end);
    } else {
      WalkFollowsAll(file, node.children, innermost, from);
      assert [] + TargetsOfAll(file, node.children, innermost) == TargetsOfAll(file, node.children, innermost);
    }
  }

  lemma {:induction false} WalkFollowsAll(file: File, nodes: seq<Node>, innermost: Option<string>, from: nat)
    requires AllPlaced(file.source, nodes, from)
    ensures from <= EndOf(nodes, from)
    ensures InTextOrder(file, TargetsOfAll(file, nodes, innermost))
    ensures Between(TargetsOfAll(file, nodes, innermost), from, EndOf(nodes, from))
    decreases nodes, 1
  {
    if nodes != [] {
      var front, last := nodes[..|nodes| - 1], nodes[|nodes| - 1];
      WalkFollowsAll(file, front, innermost, from);
      WalkFollows(file, last, innermost, EndOf(front, from));
      OrderConcat(file, TargetsOfAll(file, front, innermost), TargetsOf(file, last, innermost),
                  from, EndOf(front, from), last.end);
    }
  }

  function Targets(file: File, root: Node): seq<Target> {
    TargetsOf(file, root, None)
  }

  function Edits(file: File, root: Node): seq<Edit> {
    EmitAll(file, Targets(file, root))
  }

  /** The pre-order walk lists the targets of a well-placed tree in text order. */
  lemma WalkInTextOrder(file: File, root: Node)
    requires WellPlaced(file, root)
    ensures InTextOrder(file, Targets(file, root))
  {
    WalkFollows(file, root, None, 0);
  }

  // ----- The edits of targets in text order

  lemma FirstIsInk(source: string, node: Node)
    requires TargetPlaced(source, node)
    ensures node.pos <= First(node) <= node.start && IsInk(source, First(node))
  {
  }

  lemma TargetBounds(file: File, t: Target)
    requires TargetPlaced(file.source, t.node)
    ensures EditStart(file, t.node) <= EditEnd(file, t.node) <= t.node.start < |file.source|
  {
    FirstIsInk(file.source, t.node);
    LineStartMonotone(file.source, First(t.node), t.node.start);
    LineStartIsLineStart(file.source, t.node.start);
  }

  lemma LaterTargetStartsLater(file: File, ts: seq<Target>, i: nat, j: nat)
    requires InTextOrder(file, ts) && i < j < |ts|
    ensures ts[i].node.start < First(ts[j].node)
    ensures EditEnd(file, ts[i].node) <= EditStart(file, ts[j].node)
    ensures BeginsLine(file.source, First(ts[j].node)) ==> ts[i].node.start < EditStart(file, ts[j].node)
  {
    assert ts[i] in ts && ts[j] in ts && Follows(ts[i], ts[j]);
    FirstIsInk(file.source, ts[j].node);
    LineStartMonotone(file.source, ts[i].node.start, First(ts[j].node));
    BeginsLineMeaning(file.source, First(ts[j].node));
  }

  /** Every edit is the edit of some target, in target order. */
  lemma {:induction false} EditOrigin(file: File, ts: seq<Target>, k: nat) returns (i: nat)
    requires AllTargets(ts) && k < |EmitAll(file, ts)|
    ensures i < |ts| && OwnEdits(file, ts[i]) == [EmitAll(file, ts)[k]]
    ensures EmitAll(file, ts[..i]) == EmitAll(file, ts)[..k]
  {
    var front, last := ts[..|ts| - 1], ts[|ts| - 1];
    var edits, earlier := EmitAll(file, ts), EmitAll(file, front);
    assert edits == earlier + OwnEdits(file, last);
    if k < |earlier| {
      assert edits[k] == earlier[k] && edits[..k] == earlier[..k];
      i := EditOrigin(file, front, k);
      assert front[..i] == ts[..i];
    } else {
      i := |front|;
      assert edits[..k] == earlier;
    }
  }

  lemma {:induction false} EditPositions(file: File, ts: seq<Target>, k: nat) returns (i: nat)
    requires AllTargets(ts) && InTextOrder(file, ts) && k < |EmitAll(file, ts)|
    ensures i < |ts| && (IsMissing(ts[i]) || NeedsRewrite(file)(ts[i]))
    ensures OwnEdits(file, ts[i]) == [EmitAll(file, ts)[k]] && EmitAll(file, ts[..i]) == EmitAll(file, ts)[..k]
    ensures EmitAll(file, ts)[k].start == EditStart(file, ts[i].node)
    ensures EmitAll(file, ts)[k].end == EditEnd(file, ts[i].node)
    ensures EmitAll(file, ts)[k].start <= EmitAll(file, ts)[k].end <= ts[i].node.start < |file.source|
    ensures forall l :: k < l < |EmitAll(file, ts)| ==> EmitAll(file, ts)[k].end <= EmitAll(file, ts)[l].start
  {
    var edits := EmitAll(file, ts);
    i := EditOrigin(file, ts, k);
    assert ts[i] in ts;
    TargetBounds(file, ts[i]);
    forall l | k < l < |edits|
      ensures edits[k].end <= edits[l].start
    {
      var j := EditOrigin(file, ts, l);
      LaterOrigin(file, ts, i, j, k, l);
      assert OwnEdits(file, ts[j])[0] == edits[l];
      LaterTargetStartsLater(file, ts, i, j);
    }
  }

  lemma {:induction false} LaterOrigin(file: File, ts: seq<Target>, i: nat, j: nat, k: nat, l: nat)
    requires AllTargets(ts) && i < |ts| && j < |ts|
    requires |EmitAll(file, ts[..i])| == k < l == |EmitAll(file, ts[..j])|
    ensures i < j
  {
    if j <= i {
      PrefixEmitsFewer(file, ts, j, i);
    }
  }

  lemma PrefixEmitsFewer(file: File, ts: seq<Target>, j: nat, i: nat)
    requires AllTargets(ts) && j <= i <= |ts|
    ensures |EmitAll(file, ts[..j])| <= |EmitAll(file, ts[..i])|
  {
    assert ts[..i] == ts[..j] + ts[j..i];
    EmitAllConcat(file, ts[..j], ts[j..i]);
  }

  lemma {:induction false} ChainFromPairs(edits: seq<Edit>, from: nat, length: nat)
    requires from <= length
    requires forall k :: 0 <= k < |edits| ==> from <= edits[k].start <= edits[k].end <= length
    requires forall k, l :: 0 <= k < l < |edits| ==> edits[k].end <= edits[l].start
    ensures Chain(edits, from, length)
    decreases |edits|
  {
    if edits != [] {
      var rest := edits[1..];
      forall k | 0 <= k < |rest| ensures edits[0].end <= rest[k].start <= rest[k].end <= length {
        assert rest[k] == edits[k + 1];
      }
      ChainFromPairs(rest, edits[0].end, length);
    }
  }

  lemma {:induction false} EmitsChain(file: File, ts: seq<Target>)
    requires AllTargets(ts) && InTextOrder(file, ts)
    ensures Chain(EmitAll(file, ts), 0, |file.source|)
  {
    var edits := EmitAll(file, ts);
    forall k | 0 <= k < |edits|
      ensures edits[k].start <= edits[k].end <= |file.source|
      ensures forall l :: k < l < |edits| ==> edits[k].end <= edits[l].start
    {
      var i := EditPositions(file, ts, k);
    }
    ChainFromPairs(edits, 0, |file.source|);
  }

  /** The walk emits its edits one behind the other in the text, on whatever lines the targets stand. */
  lemma EditsAreChain(file: File, root: Node)
    requires WellPlaced(file, root)
    ensures Chain(Edits(file, root), 0, |file.source|)
  {
    WalkInTextOrder(file, root);
    EmitsChain(file, Targets(file, root));
  }

  /** A comment that opens on the line of an earlier target's token and is rewritten takes that token with it. */
  ghost predicate Swallows(file: File, ts: seq<Target>, i: int, j: int)
    requires 0 <= i < j < |ts|
  {
    NeedsRewrite(file)(ts[j]) && EditStart(file, ts[j].node) <= ts[i].node.start < EditEnd(file, ts[j].node)
  }

  ghost predicate SparesTargets(file: File, ts: seq<Target>)
    requires AllTargets(ts)
  {
    forall t :: t in ts ==> Outside(EmitAll(file, ts), t.node.start)
  }

  lemma {:induction false} OwnEditEmitted(file: File, ts: seq<Target>, j: nat)
    requires AllTargets(ts) && j < |ts|
    ensures forall e :: e in OwnEdits(file, ts[j]) ==> e in EmitAll(file, ts)
  {
    var front := ts[..|ts| - 1];
    if j < |front| {
      OwnEditEmitted(file, front, j);
    }
  }

  ghost predicate NoneSwallows(file: File, ts: seq<Target>) {
    forall i, j :: 0 <= i < j < |ts| ==> !Swallows(file, ts, i, j)
  }

  lemma OutsideByPosition(file: File, ts: seq<Target>, i: nat, j: nat, e: Edit)
    requires i < |ts| && j < |ts| && (IsMissing(ts[j]) || NeedsRewrite(file)(ts[j]))
    requires e.start == EditStart(file, ts[j].node) && e.end == EditEnd(file, ts[j].node) <= ts[j].node.start
    requires i < j ==> !Swallows(file, ts, i, j)
    requires j < i ==> ts[j].node.start < ts[i].node.start
    ensures ts[i].node.start < e.start || e.end <= ts[i].node.start
  {
  }

  lemma {:induction false} UnswallowedIsOutside(file: File, ts: seq<Target>, i: nat, k: nat)
    requires AllTargets(ts) && InTextOrder(file, ts) && NoneSwallows(file, ts)
    requires i < |ts| && k < |EmitAll(file, ts)|
    ensures ts[i].node.start < EmitAll(file, ts)[k].start || EmitAll(file, ts)[k].end <= ts[i].node.start
  {
    var j := EditPositions(file, ts, k);
    if j < i {
      LaterToken(file, ts, j, i);
    }
    OutsideByPosition(file, ts, i, j, EmitAll(file, ts)[k]);
  }

  lemma LaterToken(file: File, ts: seq<Target>, j: nat, i: nat)
    requires InTextOrder(file, ts) && j < i < |ts|
    ensures ts[j].node.start < ts[i].node.start
  {
    LaterTargetStartsLater(file, ts, j, i);
    assert ts[i] in ts;
    FirstIsInk(file.source, ts[i].node);
  }

  lemma SwallowedIsInside(file: File, ts: seq<Target>, i: nat, j: nat)
    requires AllTargets(ts) && i < j < |ts| && Swallows(file, ts, i, j)
    ensures !Outside(EmitAll(file, ts), ts[i].node.start)
  {
    OwnEditEmitted(file, ts, j);
    var e := OwnEdits(file, ts[j])[0];
    assert e in EmitAll(file, ts);
  }

  lemma SparesInOrder(file: File, ts: seq<Target>)
    requires AllTargets(ts) && InTextOrder(file, ts)
    ensures SparesTargets(file, ts) <==> NoneSwallows(file, ts)
  {
    if NoneSwallows(file, ts) {
      forall t, e | t in ts && e in EmitAll(file, ts) ensures t.node.start < e.start || e.end <= t.node.start {
        var i :| 0 <= i < |ts| && ts[i] == t;
        var k :| 0 <= k < |EmitAll(file, ts)| && EmitAll(file, ts)[k] == e;
        UnswallowedIsOutside(file, ts, i, k);
      }
    } else {
      var i, j :| 0 <= i < j < |ts| && Swallows(file, ts, i, j);
      SwallowedIsInside(file, ts, i, j);
      assert ts[i] in ts;
    }
  }

  /**
   The edits leave every target's token in place exactly when no rewritten comment opens on an earlier target's line.
   */
  lemma SparesTargetsMeaning(file: File, root: Node)
    requires WellPlaced(file, root)
    ensures SparesTargets(file, Targets(file, root)) <==> NoneSwallows(file, Targets(file, root))
  {
    WalkInTextOrder(file, root);
    SparesInOrder(file, Targets(file, root));
  }

  // ----- Where the splice loop puts the edits in place

  /** An edit that covers text replaces a comment whose token stands on a later line. */
  lemma CoversLineBreak(file: File, t: Target)
    requires TargetPlaced(file.source, t.node) && EditStart(file, t.node) < EditEnd(file, t.node)
    ensures !IsMissing(t) && First(t.node) < EditEnd(file, t.node)
  {
    FirstIsInk(file.source, t.node);
    LineStartIsLineStart(file.source, First(t.node));
    LineStartIsLineStart(file.source, t.node.start);
    assert file.source[EditEnd(file, t.node) - 1] == '\n';
  }

  /** A replacement that shares its start with an earlier edit has its comment on the line of that edit's token. */
  lemma SharedStartSwallows(file: File, ts: seq<Target>, i: nat, j: nat)
    requires InTextOrder(file, ts) && i < j < |ts| && (IsMissing(ts[j]) || NeedsRewrite(file)(ts[j]))
    requires EditStart(file, ts[i].node) == EditStart(file, ts[j].node)
    ensures EditStart(file, ts[j].node) < EditEnd(file, ts[j].node) ==> Swallows(file, ts, i, j)
  {
    assert ts[i] in ts && ts[j] in ts && Follows(ts[i], ts[j]);
    LaterTargetStartsLater(file, ts, i, j);
    TargetBounds(file, ts[i]);
    if EditStart(file, ts[j].node) < EditEnd(file, ts[j].node) {
      CoversLineBreak(file, ts[j]);
    }
  }

  lemma {:induction false} UnswallowedLeads(file: File, ts: seq<Target>)
    requires AllTargets(ts) && InTextOrder(file, ts) && NoneSwallows(file, ts)
    ensures ReplacementsLead(EmitAll(file, ts))
  {
    var edits := EmitAll(file, ts);
    forall k, l | 0 <= k < l < |edits| && edits[k].start == edits[l].start ensures IsInsertion(edits[l]) {
      var i := EditPositions(file, ts, k);
      var j := EditPositions(file, ts, l);
      LaterOrigin(file, ts, i, j, k, l);
      SharedStartSwallows(file, ts, i, j);
    }
  }

  /** The loop substitutes the walk's edits at once exactly where no replacement does harm. */
  lemma {:induction false} WalkIsExact(file: File, root: Node)
    requires WellPlaced(file, root)
    ensures LoopSubstitutes(file.source, Edits(file, root)) <==> AllHarmless(file.source, Edits(file, root))
  {
    EditsAreChain(file, root);
    SpliceIsExact(file.source, Edits(file, root));
  }

  /** It does so whatever the comments say exactly where no replacement comes after an edit with its start. */
  lemma WalkIsExactForEveryText(file: File, root: Node)
    requires WellPlaced(file, root)
    ensures (forall others :: SameRanges(Edits(file, root), others) ==> LoopSubstitutes(file.source, others))
       <==> ReplacementsLead(Edits(file, root))
  {
    EditsAreChain(file, root);
    SubstitutesEveryText(file.source, Edits(file, root));
  }

  /** Where no comment swallows a token, the loop substitutes at once, whatever the comments say. */
  lemma UnswallowedIsSubstituted(file: File, root: Node)
    requires WellPlaced(file, root) && NoneSwallows(file, Targets(file, root))
    ensures ReplacementsLead(Edits(file, root)) && LoopSubstitutes(file.source, Edits(file, root))
  {
    WalkInTextOrder(file, root);
    UnswallowedLeads(file, Targets(file, root));
    WalkIsExactForEveryText(file, root);
    assert SameRanges(Edits(file, root), Edits(file, root));
  }

  // ----- Files in which that is so

  /** Every carriage return belongs to a line break that the line search knows. */
  ghost predicate NoLoneReturn(s: string) {
    forall i :: 0 <= i < |s| && s[i] == '\r' ==> i + 1 < |s| && s[i + 1] == '\n'
  }

  lemma BreakIsLineFeed(s: string, from: nat, p: nat)
    requires NoLoneReturn(s) && IsInk(s, p) && BreakBetween(s, from, p)
    ensures LineFeedBetween(s, from, p)
  {
    var k :| from <= k < p && k < |s| && IsBreak(s[k]);
    assert s[k] == '\r' ==> s[k + 1] == '\n';
  }

  /** Without lone carriage returns the edit of a commented function lies behind the token before it. */
  lemma PlainEditStartsLater(file: File, node: Node)
    requires TargetPlaced(file.source, node) && NoLoneReturn(file.source) && node.doc.Some?
    ensures node.pos > 0 ==> node.pos < EditStart(file, node)
  {
    FirstIsInk(file.source, node);
    if node.pos > 0 {
      BreakIsLineFeed(file.source, node.pos, First(node));
      LineStartBehind(file.source, node.pos, First(node));
    }
  }

  /** Without lone carriage returns no comment swallows a token. */
  lemma PlainFileSwallowsNone(file: File, root: Node)
    requires WellPlaced(file, root) && NoLoneReturn(file.source)
    ensures NoneSwallows(file, Targets(file, root))
  {
    var ts := Targets(file, root);
    WalkInTextOrder(file, root);
    forall i, j | 0 <= i < j < |ts| ensures !Swallows(file, ts, i, j) {
      assert ts[j] in ts && Follows(ts[i], ts[j]);
      if NeedsRewrite(file)(ts[j]) {
        PlainEditStartsLater(file, ts[j].node);
      }
    }
  }

  /** Every target begins its own line. */
  ghost predicate OwnLines(file: File, root: Node) {
    forall t :: t in Targets(file, root) ==> BeginsLine(file.source, First(t.node))
  }

  lemma OwnLineIsLater(file: File, root: Node, i: nat, j: nat)
    requires WellPlaced(file, root) && OwnLines(file, root) && i < j < |Targets(file, root)|
    ensures Targets(file, root)[i].node.start < EditStart(file, Targets(file, root)[j].node)
  {
    WalkInTextOrder(file, root);
    LaterTargetStartsLater(file, Targets(file, root), i, j);
    assert Targets(file, root)[j] in Targets(file, root);
  }

  lemma OwnLinesSwallowNone(file: File, root: Node)
    requires WellPlaced(file, root) && OwnLines(file, root)
    ensures NoneSwallows(file, Targets(file, root))
  {
    forall i, j | 0 <= i < j < |Targets(file, root)| ensures !Swallows(file, Targets(file, root), i, j) {
      OwnLineIsLater(file, root, i, j);
    }
  }

  /**
   If every target begins its own line, the edits come in strictly ascending order, which is their place in the text.
   */
  lemma EditsAscend(file: File, root: Node)
    requires WellPlaced(file, root) && OwnLines(file, root)
    ensures StrictlyAscending(Edits(file, root)) && InPlace(Edits(file, root)) == Edits(file, root)
  {
    var ts, edits := Targets(file, root), Edits(file, root);
    WalkInTextOrder(file, root);
    forall k, l | 0 <= k < l < |edits| ensures edits[k].start < edits[l].start {
      var i := EditPositions(file, ts, k);
      var j := EditPositions(file, ts, l);
      LaterOrigin(file, ts, i, j, k, l);
      OwnLineIsLater(file, root, i, j);
    }
    SortReverses(edits);
  }
}
