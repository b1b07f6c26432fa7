/** `applyFile`, and what it leaves of a file. */
module RewrittenFile {
  import opened Options
  import opened Seqs
  import opened SyntaxTree
  import opened Splice
  import opened SharedStarts
  import opened JsDocVisitor
  import opened JsDocEdits
  import opened Paths
  import opened TargetPaths
  import opened CommentPlaces

  // ----- The code of a plain file survives

  /** Between the token before a target and its own, where only comments and white space stand. */
  predicate InGap(t: Target, p: nat) {
    t.node.pos <= p < t.node.start
  }

  ghost predicate OutsideGaps(file: File, root: Node, p: nat) {
    forall t :: Rewritten(file, root, t) ==> !InGap(t, p)
  }

  /** All the text is kept but what stands before the functions whose comments are rewritten. */
  ghost predicate SparesCode(file: File, root: Node, updated: string) {
    forall p :: 0 <= p < |file.source| && OutsideGaps(file, root, p) ==> Kept(file, root, updated, p)
  }

  /** In a file without lone carriage returns an edit covers text of the gap before its own target alone. */
  lemma {:induction false} PlainEditInGap(file: File, root: Node, e: Edit, p: nat)
    requires WellPlaced(file, root) && NoLoneReturn(file.source)
    requires e in Edits(file, root) && e.start <= p < e.end
    ensures !OutsideGaps(file, root, p)
  {
    var ts := Targets(file, root);
    WalkInTextOrder(file, root);
    var k :| 0 <= k < |Edits(file, root)| && Edits(file, root)[k] == e;
    var j := EditPositions(file, ts, k);
    assert ts[j] in ts;
    TargetIsPlaced(file, root, ts[j]);
    assert !IsMissing(ts[j]);
    PlainEditStartsLater(file, ts[j].node);
    assert Rewritten(file, root, ts[j]) && InGap(ts[j], p);
  }

  lemma {:induction false} PlainFileSparesCode(file: File, root: Node)
    requires WellPlaced(file, root) && NoLoneReturn(file.source)
    ensures SparesCode(file, root, Updated(file, root))
  {
    PlainFileSwallowsNone(file, root);
    forall p | 0 <= p < |file.source| && OutsideGaps(file, root, p) ensures Kept(file, root, Updated(file, root), p) {
      forall e | e in Edits(file, root) ensures p < e.start || e.end <= p {
        if e.start <= p < e.end {
          PlainEditInGap(file, root, e, p);
        }
      }
      OutsideIsKept(file, root, p);
    }
  }

  /** The nodes without parts, in text order: names, literals, keywords. */
  function LeavesOf(node: Node): seq<Node>
    decreases node, 0
  {
    if node.children == [] then [node] else LeavesOfAll(node.children)
  }

  function LeavesOfAll(nodes: seq<Node>): seq<Node>
    decreases nodes, 1
  {
    if nodes == [] then [] else LeavesOfAll(nodes[..|nodes| - 1]) + LeavesOf(nodes[|nodes| - 1])
  }

  ghost predicate LeavesBetween(leaves: seq<Node>, from: nat, to: nat) {
    forall m :: m in leaves ==> from <= m.start + 1 && m.end <= to
  }

  predicate Clear(m: Node, t: Target) {
    m.end <= t.node.pos || t.node.start <= m.start
  }

  ghost predicate AllClear(leaves: seq<Node>, ts: seq<Target>) {
    forall m, t :: m in leaves && t in ts ==> Clear(m, t)
  }

  lemma ClearConcat(a: seq<Node>, ts: seq<Target>, b: seq<Node>, us: seq<Target>, from: nat, mid: nat, to: nat)
    requires from <= mid <= to && LeavesBetween(a, from, mid) && LeavesBetween(b, mid, to)
    requires Between(ts, from, mid) && Between(us, mid, to) && AllClear(a, ts) && AllClear(b, us)
    ensures LeavesBetween(a + b, from, to) && AllClear(a + b, ts + us)
  {
  }

  lemma {:induction false} LeavesClear(file: File, node: Node, innermost: Option<string>, from: nat)
    requires Placed(file.source, node, from)
    ensures LeavesBetween(LeavesOf(node), from, node.end)
    ensures AllClear(LeavesOf(node), TargetsOf(file, node, innermost))
    decreases node, 0
  {
    if node.kind.ClassDeclaration? {
      LeavesClearAll(file, node.children, Some(ClassName(file, node)), from);
    } else if IsFunctionTarget(node) {
      LeavesClearAll(file, node.children, innermost, node.start + 1);
      assert AllClear(LeavesOf(node), [Target(node, innermost)]);
    } else {
      LeavesClearAll(file, node.children, innermost, from);
    }
  }

  lemma {:induction false} LeavesClearAll(file: File, nodes: seq<Node>, innermost: Option<string>, from: nat)
    requires AllPlaced(file.source, nodes, from)
    ensures LeavesBetween(LeavesOfAll(nodes), from, EndOf(nodes, from))
    ensures AllClear(LeavesOfAll(nodes), TargetsOfAll(file, nodes, innermost))
    decreases nodes, 1
  {
    if nodes != [] {
      var front, last := nodes[..|nodes| - 1], nodes[|nodes| - 1];
      LeavesClearAll(file, front, innermost, from);
      LeavesClear(file, last, innermost, EndOf(front, from));
      WalkFollowsAll(file, front, innermost, from);
      WalkFollows(file, last, innermost, EndOf(front, from));
      ClearConcat(LeavesOfAll(front), TargetsOfAll(file, front, innermost), LeavesOf(last),
                  TargetsOf(file, last, innermost), from, EndOf(front, from), last.end);
    }
  }

  lemma {:induction false} LeafIsListed(root: Node, path: Path)
    requires NodeAt(root, path).Some? && NodeAt(root, path).value.children == []
    ensures NodeAt(root, path).value in LeavesOf(root)
    decreases |path|
  {
    if path != [] {
      LeafIsListed(root.children[path[0]], path[1..]);
      LeavesOfChild(root.children, path[0], NodeAt(root, path).value);
    }
  }

  lemma {:induction false} LeavesOfChild(nodes: seq<Node>, k: nat, m: Node)
    requires k < |nodes| && m in LeavesOf(nodes[k])
    ensures m in LeavesOfAll(nodes)
    decreases |nodes|
  {
    if k < |nodes| - 1 {
      LeavesOfChild(nodes[..|nodes| - 1], k, m);
    }
  }

  /** In a plain file every name, literal and keyword of the tree survives, character by character. */
  lemma {:induction false} PlainFileKeepsLeaves(file: File, root: Node, path: Path, p: nat)
    requires WellPlaced(file, root) && NoLoneReturn(file.source)
    requires NodeAt(root, path).Some? && NodeAt(root, path).value.children == []
    requires NodeAt(root, path).value.start <= p < NodeAt(root, path).value.end
    ensures Kept(file, root, Updated(file, root), p)
  {
    var m := NodeAt(root, path).value;
    LeafIsListed(root, path);
    LeavesClear(file, root, None, 0);
    assert OutsideGaps(file, root, p) by {
      forall t | Rewritten(file, root, t) ensures !InGap(t, p) {
        assert Clear(m, t);
      }
    }
    PlainFileSparesCode(file, root);
  }

  // ----- The whole file

  /** What holds of a file whose comments swallow no token. */
  ghost predicate SparedOutcome(file: File, root: Node, updated: string) {
    && AllHarmless(file.source, Edits(file, root))
    && (EditedBeginLines(file, root) ==> AllAttached(file, root, updated))
    && (CommentsEndLines(file, root) && AllAttached(file, root, updated) ==> EditedBeginLines(file, root))
    && (forall t :: Rewritten(file, root, t) && !LineFeedBetween(file.source, t.node.doc.value.end, t.node.start) ==>
          LeavesCloser(file, root, updated, t))
  }

  /**
   The text is the source with every comment put in place at once exactly where no replacement does harm, as where no
   comment swallows a token.  In a file without lone carriage returns none does, and the code survives.
   */
  ghost predicate Outcome(file: File, root: Node, updated: string) {
    && NonOverlapping(Edits(file, root), |file.source|)
    && (updated == SubstituteAll(file.source, Edits(file, root)) <==> AllHarmless(file.source, Edits(file, root)))
    && (NoneSwallows(file, Targets(file, root)) ==> SparedOutcome(file, root, updated))
    && (NoLoneReturn(file.source) ==> NoneSwallows(file, Targets(file, root)) && SparesCode(file, root, updated))
  }

  lemma {:induction false} SparedOutcomeHolds(file: File, root: Node)
    requires WellPlaced(file, root) && NoneSwallows(file, Targets(file, root))
    ensures SparedOutcome(file, root, Updated(file, root))
  {
    UnswallowedIsSubstituted(file, root);
    WalkIsExact(file, root);
    if EditedBeginLines(file, root) {
      BeginnersAreAttached(file, root);
    }
    if CommentsEndLines(file, root) {
      CommentsAttach(file, root);
    }
    forall t | Rewritten(file, root, t) && !LineFeedBetween(file.source, t.node.doc.value.end, t.node.start)
      ensures LeavesCloser(file, root, Updated(file, root), t)
    {
      CloserStays(file, root, t);
    }
  }

  lemma {:induction false} OutcomeHolds(file: File, root: Node, updated: string)
    requires WellPlaced(file, root) && updated == Updated(file, root)
    ensures Outcome(file, root, updated)
  {
    EditsAreChain(file, root);
    ChainIsNonOverlapping(Edits(file, root), |file.source|);
    WalkIsExact(file, root);
    if NoneSwallows(file, Targets(file, root)) {
      SparedOutcomeHolds(file, root);
    }
    if NoLoneReturn(file.source) {
      PlainFileSwallowsNone(file, root);
      PlainFileSparesCode(file, root);
    }
  }

  /** The edits of the walk and the two counters. */
  method CollectEdits(file: File, root: Node) returns (edits: seq<Edit>, insertions: nat, replacements: nat)
    ensures edits == Edits(file, root)
    ensures insertions == Count(Targets(file, root), IsMissing)
    ensures replacements == Count(Targets(file, root), NeedsRewrite(file))
    ensures insertions + replacements == |edits|
    ensures exists paths :: Lists(TargetAt(file, root, None), Targets(file, root), paths)
    ensures WellPlaced(file, root) ==> AllServed(file, root, edits, insertions, replacements)
  {
    var visitor := new Visitor(file);
    visitor.Visit(root);
    assert [] + Targets(file, root) == Targets(file, root);
    EditCount(file, Targets(file, root));
    ghost var paths := WalkIsListed(file, root, None);
    if WellPlaced(file, root) {
      paths := WalkServes(file, root);
    }
    edits, insertions, replacements := visitor.edits, visitor.insertions, visitor.replacements;
  }

  /**
   Rewrites one file.  The walk serves every function of the tree, wherever it is, with its class as the tree has it.
   */
  method ApplyFile(file: File, root: Node) returns (updated: string, insertions: nat, replacements: nat)
    ensures insertions == Count(Targets(file, root), IsMissing)
    ensures replacements == Count(Targets(file, root), NeedsRewrite(file))
    ensures insertions + replacements == |Edits(file, root)|
    ensures exists paths :: Lists(TargetAt(file, root, None), Targets(file, root), paths)
    ensures updated == Updated(file, root)
    ensures WellPlaced(file, root) ==>
              Outcome(file, root, updated) && AllServed(file, root, Edits(file, root), insertions, replacements)
  {
    var edits;
    edits, insertions, replacements := CollectEdits(file, root);
    updated := file.source;
    if edits != [] {
      updated := ApplyEdits(file.source, edits);
    }
    if WellPlaced(file, root) {
      OutcomeHolds(file, root, updated);
    }
  }
}
