/** Which functions of a tree the rewriter's walk finds, and what it emits for each. */
module TargetPaths {
  import opened Options
  import opened Seqs
  import opened SyntaxTree
  import opened CacheKey
  import opened Paths
  import opened Splice
  import opened JsDocVisitor
  import opened JsDocEdits

  function DeclaredName(file: File): Node -> string {
    (node: Node) =>
      match node.kind
      case ClassDeclaration(Some(name)) => name
      case _ => "AnonymousClass" + Decimal(file.lineOf(node.start) + 1)
  }

  predicate IsFunctionKind(kind: Kind) {
    match kind
    case FunctionDeclaration(_) => true
    case MethodDeclaration(_) => true
    case ConstructorDeclaration => true
    case _ => false
  }

  /** The target at a path, told by the path: a function, and the closest class declaration above it. */
  function TargetAt(file: File, root: Node, outer: Option<string>): Path -> Option<Target> {
    (path: Path) =>
      var node := NodeAt(root, path);
      if node.Some? && IsFunctionKind(node.value.kind)
      then Some(Target(node.value, ClosestClass(root, path, DeclaredName(file), outer)))
      else None
  }

  lemma {:induction false} TargetBelow(file: File, root: Node, outer: Option<string>, k: nat, p: Path)
    requires k < |root.children|
    ensures TargetAt(file, root, outer)([k] + p)
         == TargetAt(file, root.children[k], HandedDown(root, DeclaredName(file), outer))(p)
  {
    assert ([k] + p)[1..] == p;
    ClosestClassBelow(root, k, p, DeclaredName(file), outer);
  }

  lemma {:induction false} ChildrenAreListed(file: File, node: Node, outer: Option<string>, n: nat)
    returns (paths: seq<Path>)
    requires n <= |node.children|
    ensures ListsThrough(TargetAt(file, node, outer), 0, n,
                         TargetsOfAll(file, node.children[..n], HandedDown(node, DeclaredName(file), outer)), paths)
    decreases node, n
  {
    var at, inner := TargetAt(file, node, outer), HandedDown(node, DeclaredName(file), outer);
    if n == 0 {
      ListsNone(at, 0);
      paths := [];
    } else {
      var k, child := n - 1, node.children[n - 1];
      var front := ChildrenAreListed(file, node, outer, k);
      var below := WalkIsListed(file, child, inner);
      forall p: Path ensures TargetAt(file, child, inner)(p) == at([k] + p) {
        TargetBelow(file, node, outer, k, p);
      }
      ListsUnder(at, k, TargetAt(file, child, inner), TargetsOf(file, child, inner), below);
      assert node.children[..n][..k] == node.children[..k];
      ListsMore(at, 0, k, n, TargetsOfAll(file, node.children[..k], inner), front, TargetsOf(file, child, inner),
                Under(k, below));
      paths := front + Under(k, below);
    }
  }

  lemma {:induction false} WalkIsListed(file: File, node: Node, outer: Option<string>) returns (paths: seq<Path>)
    ensures Lists(TargetAt(file, node, outer), TargetsOf(file, node, outer), paths)
    decreases node, |node.children| + 1
  {
    var at, n := TargetAt(file, node, outer), |node.children|;
    var inner := HandedDown(node, DeclaredName(file), outer);
    var below := ChildrenAreListed(file, node, outer, n);
    assert node.children[..n] == node.children;
    var own := if node.kind.ClassDeclaration? then [] else OwnTargets(node, outer);
    ListsOwn(at, n, own, TargetsOfAll(file, node.children, inner), below);
    assert TargetsOf(file, node, outer) == own + TargetsOfAll(file, node.children, inner);
    paths := (if own == [] then [] else [[]]) + below;
  }

  // ----- What it emits

  /** The line of `p` begins at `a`. */
  ghost predicate IsLineOf(s: string, p: nat, a: nat) {
    a <= p <= |s| && (a == 0 || s[a - 1] == '\n') && forall k :: a <= k < p ==> s[k] != '\n'
  }

  lemma LineOfIs(s: string, p: nat)
    requires IsInk(s, p)
    ensures IsLineOf(s, p, ReadLineStartIndex(s, p))
  {
    LineStartIsLineStart(s, p);
  }

  /** All the blanks and tabs that stand at `from`. */
  ghost predicate IsIndentAt(s: string, from: nat, indent: string) {
    && from + |indent| <= |s| && s[from..from + |indent|] == indent
    && (forall c :: c in indent ==> c == ' ' || c == '\t')
    && (from + |indent| < |s| ==> s[from + |indent|] != ' ' && s[from + |indent|] != '\t')
  }

  lemma {:induction false} IndentLengthIsMaximal(s: string, from: nat)
    requires from <= |s|
    ensures from + IndentLength(s, from) <= |s|
    ensures forall k :: from <= k < from + IndentLength(s, from) ==> s[k] == ' ' || s[k] == '\t'
    ensures var end := from + IndentLength(s, from); end < |s| ==> s[end] != ' ' && s[end] != '\t'
    decreases |s| - from
  {
    if from < |s| && (s[from] == ' ' || s[from] == '\t') {
      IndentLengthIsMaximal(s, from + 1);
    }
  }

  lemma IndentIs(s: string, from: nat)
    requires from <= |s|
    ensures IsIndentAt(s, from, IndentAt(s, from))
  {
    IndentLengthIsMaximal(s, from);
    assert IndentAt(s, from) == s[from..from + IndentLength(s, from)];
  }

  /** What a function is called in its comment: with its class, unless it is a function declaration. */
  ghost predicate IsNameOf(file: File, t: Target, name: string) {
    match t.node.kind
    case FunctionDeclaration(Some(own)) => name == own
    case FunctionDeclaration(None) => name == "anonymousFunction@" + Decimal(file.lineOf(t.node.start) + 1)
    case ConstructorDeclaration =>
      (t.innermost == None && name == "AnonymousClass.constructor")
      || (t.innermost.Some? && name == t.innermost.value + ".constructor")
    case MethodDeclaration(own) =>
      var plain := if own.Some? then own.value else "anonymousMethod";
      if t.innermost == None || t.innermost == Some("") then name == plain else name == t.innermost.value + "." + plain
    case _ => false
  }

  lemma NameIs(file: File, t: Target)
    requires IsFunctionTarget(t.node)
    ensures IsNameOf(file, t, NormalizeFunctionName(file, t))
  {
    assert t.innermost == None ==> "AnonymousClass" + ".constructor" == "AnonymousClass.constructor";
  }

  /**
   The edits of one function: its comment goes before its line if it has none, and in the place of the lines from that
   of its old comment on if those read as poor.
   */
  ghost predicate Emits(file: File, t: Target, edits: seq<Edit>) {
    exists b: nat, name, indent :: EmitsAt(file, t, b, name, indent, edits)
  }

  ghost predicate EmitsAt(file: File, t: Target, b: nat, name: string, indent: string, edits: seq<Edit>) {
    && IsLineOf(file.source, t.node.start, b) && IsNameOf(file, t, name) && IsIndentAt(file.source, b, indent)
    && match t.node.doc
       case None => edits == [Edit(b, b, file.comment(t.node, name, indent))]
       case Some(doc) =>
         exists a: nat ::
           && IsLineOf(file.source, doc.start, a) && a <= b <= |file.source|
           && edits == if file.isLowQuality(file.source[a..b]) then [Edit(a, b, file.comment(t.node, name, indent))]
                       else []
  }

  lemma OwnEditsAre(file: File, t: Target)
    requires IsFunctionTarget(t.node) && TargetPlaced(file.source, t.node)
    ensures Emits(file, t, OwnEdits(file, t))
  {
    var b := EditEnd(file, t.node);
    FirstIsInk(file.source, t.node);
    TargetBounds(file, t);
    LineOfIs(file.source, t.node.start);
    LineOfIs(file.source, First(t.node));
    NameIs(file, t);
    IndentIs(file.source, b);
    assert Slice(file.source, EditStart(file, t.node), b) == file.source[EditStart(file, t.node)..b];
    assert EmitsAt(file, t, b, NormalizeFunctionName(file, t), IndentAt(file.source, b), OwnEdits(file, t));
  }

  function EachOwnEdits(file: File, ts: seq<Target>): seq<seq<Edit>>
    requires AllTargets(ts)
  {
    seq(|ts|, i requires 0 <= i < |ts| => OwnEdits(file, ts[i]))
  }

  lemma {:induction false} EmittedInOrder(file: File, ts: seq<Target>)
    requires AllTargets(ts)
    ensures EmitAll(file, ts) == Flatten(EachOwnEdits(file, ts))
  {
    if ts != [] {
      var front := ts[..|ts| - 1];
      EmittedInOrder(file, front);
      assert EachOwnEdits(file, ts)[..|ts| - 1] == EachOwnEdits(file, front);
    }
  }

  /** The functions of the tree, where they are, what is emitted for each, and how that is counted. */
  ghost predicate Serves(file: File, root: Node, edits: seq<Edit>, insertions: nat, replacements: nat, paths: seq<Path>,
                         ts: seq<Target>, parts: seq<seq<Edit>>)
  {
    && Lists(TargetAt(file, root, None), ts, paths)
    && |parts| == |ts| && (forall i :: 0 <= i < |ts| ==> Emits(file, ts[i], parts[i]))
    && edits == Flatten(parts)
    && Counts(ts, parts, insertions, replacements)
  }

  ghost predicate Counts(ts: seq<Target>, parts: seq<seq<Edit>>, insertions: nat, replacements: nat) {
    && |parts| == |ts|
    && insertions == |set i | 0 <= i < |ts| && ts[i].node.doc.None?|
    && replacements == |set i | 0 <= i < |ts| && ts[i].node.doc.Some? && parts[i] != []|
  }

  lemma {:induction false} CountsAre(file: File, ts: seq<Target>)
    requires AllTargets(ts)
    ensures Counts(ts, EachOwnEdits(file, ts), Count(ts, IsMissing), Count(ts, NeedsRewrite(file)))
  {
    var parts := EachOwnEdits(file, ts);
    CountIsCardinality(ts, IsMissing, set i | 0 <= i < |ts| && ts[i].node.doc.None?);
    CountIsCardinality(ts, NeedsRewrite(file), set i | 0 <= i < |ts| && ts[i].node.doc.Some? && parts[i] != []);
  }

  /** The walk finds every function of the tree, and emits for each what it should. */
  lemma {:induction false} WalkServes(file: File, root: Node) returns (paths: seq<Path>)
    requires WellPlaced(file, root)
    ensures Serves(file, root, Edits(file, root), Count(Targets(file, root), IsMissing),
                   Count(Targets(file, root), NeedsRewrite(file)), paths, Targets(file, root),
                   EachOwnEdits(file, Targets(file, root)))
  {
    var ts := Targets(file, root);
    var parts := EachOwnEdits(file, ts);
    paths := WalkIsListed(file, root, None);
    EmittedInOrder(file, ts);
    WalkInTextOrder(file, root);
    forall i | 0 <= i < |ts| ensures Emits(file, ts[i], parts[i]) {
      assert ts[i] in ts;
      OwnEditsAre(file, ts[i]);
    }
    CountsAre(file, ts);
  }

  /** Every function of the tree is served, and no other node is. */
  ghost predicate AllServed(file: File, root: Node, edits: seq<Edit>, insertions: nat, replacements: nat) {
    exists paths, ts, parts :: Serves(file, root, edits, insertions, replacements, paths, ts, parts)
  }

  /** A function without a comment gets one inserted, wherever it is in the tree. */
  lemma {:induction false} UndocumentedGetComment(file: File, root: Node, path: Path)
    requires WellPlaced(file, root) && NodeAt(root, path).Some?
    requires IsFunctionKind(NodeAt(root, path).value.kind) && NodeAt(root, path).value.doc.None?
    ensures exists e ::
              && e in Edits(file, root) && e.start == e.end
              && IsLineOf(file.source, NodeAt(root, path).value.start, e.start)
  {
    var ts := Targets(file, root);
    var parts := EachOwnEdits(file, ts);
    var paths := WalkServes(file, root);
    assert TargetAt(file, root, None)(path).Some?;
    var i :| 0 <= i < |paths| && paths[i] == path;
    assert Emits(file, ts[i], parts[i]);
    var b: nat, name, indent :| EmitsAt(file, ts[i], b, name, indent, parts[i]);
    PartIsFlattened(parts, i, parts[i][0]);
  }

  lemma {:induction false} PartIsFlattened<T>(parts: seq<seq<T>>, i: nat, x: T)
    requires i < |parts| && x in parts[i]
    ensures x in Flatten(parts)
  {
    if i < |parts| - 1 {
      PartIsFlattened(parts[..|parts| - 1], i, x);
    }
  }
}
