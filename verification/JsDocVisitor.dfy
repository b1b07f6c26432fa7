/** `applyFile`: the walk that emits the edits.  What a comment says is left to the caller. */
module JsDocVisitor {
  import opened Options
  import opened Seqs
  import opened SyntaxTree
  import opened CacheKey
  import opened Splice

  /**
   The file, the line of a position, the comment for a node, its name and its indent, and the judgement of a comment.
   */
  datatype File = File(
    source: string,
    lineOf: nat -> nat,
    comment: (Node, string, string) -> string,
    isLowQuality: string -> bool)

  /** A function, method or constructor, and the name of the class declaration closest around it. */
  datatype Target = Target(node: Node, innermost: Option<string>)

  predicate IsFunctionTarget(node: Node) {
    node.kind.FunctionDeclaration? || node.kind.MethodDeclaration? || node.kind.ConstructorDeclaration?
  }

  // ----- Positions

  /** `s.lastIndexOf("\n", k)` */
  function LastNewline(s: string, k: int): int
    decreases k + 1
  {
    if k < 0 then -1 else if k < |s| && s[k] == '\n' then k else LastNewline(s, k - 1)
  }

  function ReadLineStartIndex(s: string, index: nat): nat {
    var i := LastNewline(s, if index > 0 then index - 1 else 0);
    if i < 0 then 0 else i + 1
  }

  /** Where a target begins: its first doc comment, or its first token. */
  function First(node: Node): nat {
    if node.doc.Some? then node.doc.value.start else node.start
  }

  function EditStart(file: File, node: Node): nat {
    ReadLineStartIndex(file.source, First(node))
  }

  function EditEnd(file: File, node: Node): nat {
    ReadLineStartIndex(file.source, node.start)
  }

  /** `source.slice(from, to)`, clamped. */
  function Slice(s: string, from: nat, to: nat): string {
    var end := if to <= |s| then to else |s|;
    if from <= end then s[from..end] else ""
  }

  function IndentLength(s: string, from: nat): nat
    decreases |s| - from
  {
    if from < |s| && (s[from] == ' ' || s[from] == '\t') then 1 + IndentLength(s, from + 1) else 0
  }

  /** The blanks and tabs at `from`. */
  function IndentAt(s: string, from: nat): string {
    Slice(s, from, from + IndentLength(s, from))
  }

  // ----- Names

  function ClassName(file: File, node: Node): string
    requires node.kind.ClassDeclaration?
  {
    node.kind.className.GetOr("AnonymousClass" + Decimal(file.lineOf(node.start) + 1))
  }

  function NormalizeFunctionName(file: File, t: Target): string
    requires IsFunctionTarget(t.node)
  {
    match t.node.kind
    case ConstructorDeclaration => t.innermost.GetOr("AnonymousClass") + ".constructor"
    case FunctionDeclaration(name) =>
      name.GetOr("anonymousFunction@" + Decimal(file.lineOf(t.node.start) + 1))
    case MethodDeclaration(name) =>
      var methodName := name.GetOr("anonymousMethod");
      if t.innermost.Some? && t.innermost.value != "" then t.innermost.value + "." + methodName else methodName
  }

  // ----- The edit of one target

  predicate IsMissing(t: Target) {
    t.node.doc.None?
  }

  function NeedsRewrite(file: File): Target -> bool {
    (t: Target) =>
      t.node.doc.Some? && file.isLowQuality(Slice(file.source, EditStart(file, t.node), EditEnd(file, t.node)))
  }

  function Comment(file: File, t: Target): string
    requires IsFunctionTarget(t.node)
  {
    file.comment(t.node, NormalizeFunctionName(file, t), IndentAt(file.source, EditEnd(file, t.node)))
  }

  function OwnEdits(file: File, t: Target): seq<Edit>
    requires IsFunctionTarget(t.node)
  {
    if IsMissing(t) || NeedsRewrite(file)(t)
    then [Edit(EditStart(file, t.node), EditEnd(file, t.node), Comment(file, t))]
    else []
  }

  // ----- What the walk emits, with the class context as a parameter

  ghost predicate AllTargets(ts: seq<Target>) {
    forall t :: t in ts ==> IsFunctionTarget(t.node)
  }

  function EmitAll(file: File, ts: seq<Target>): seq<Edit>
    requires AllTargets(ts)
  {
    if ts == [] then [] else EmitAll(file, ts[..|ts| - 1]) + OwnEdits(file, ts[|ts| - 1])
  }

  /** The targets below a node, in pre-order. */
  function TargetsOf(file: File, node: Node, innermost: Option<string>): (ts: seq<Target>)
    ensures AllTargets(ts)
    decreases node, 0
  {
    if node.kind.ClassDeclaration? then TargetsOfAll(file, node.children, Some(ClassName(file, node)))
    else OwnTargets(node, innermost) + TargetsOfAll(file, node.children, innermost)
  }

  function OwnTargets(node: Node, innermost: Option<string>): (ts: seq<Target>)
    ensures AllTargets(ts)
  {
    if IsFunctionTarget(node) then [Target(node, innermost)] else []
  }

  function TargetsOfAll(file: File, nodes: seq<Node>, innermost: Option<string>): (ts: seq<Target>)
    ensures AllTargets(ts)
    decreases nodes, 1
  {
    if nodes == [] then []
    else TargetsOfAll(file, nodes[..|nodes| - 1], innermost) + TargetsOf(file, nodes[|nodes| - 1], innermost)
  }

  lemma {:induction false} EmitAllConcat(file: File, a: seq<Target>, b: seq<Target>)
    requires AllTargets(a) && AllTargets(b)
    ensures EmitAll(file, a + b) == EmitAll(file, a) + EmitAll(file, b)
  {
    if b == [] {
      assert a + b == a;
    } else {
      assert (a + b)[..|a + b| - 1] == a + b[..|b| - 1];
      EmitAllConcat(file, a, b[..|b| - 1]);
    }
  }

  lemma EmitOne(file: File, t: Target)
    requires IsFunctionTarget(t.node)
    ensures EmitAll(file, [t]) == OwnEdits(file, t)
  {
    assert [t][..0] == [];
  }

  lemma OneMoreTarget(file: File, ts: seq<Target>, t: Target)
    requires AllTargets(ts) && IsFunctionTarget(t.node)
    ensures AllTargets(ts + [t]) && EmitAll(file, ts + [t]) == EmitAll(file, ts) + OwnEdits(file, t)
    ensures Count(ts + [t], IsMissing) == Count(ts, IsMissing) + (if IsMissing(t) then 1 else 0)
    ensures Count(ts + [t], NeedsRewrite(file))
         == Count(ts, NeedsRewrite(file)) + (if NeedsRewrite(file)(t) then 1 else 0)
  {
    EmitAllConcat(file, ts, [t]);
    EmitOne(file, t);
    CountAppend(ts, t, IsMissing);
    CountAppend(ts, t, NeedsRewrite(file));
  }

  /**
   A target without a comment gets one inserted, one with a poor comment gets it replaced, any other is left alone; the
   insertions and the replacements are counted.
   */
  lemma TargetCases(file: File, ts: seq<Target>, t: Target)
    requires AllTargets(ts) && IsFunctionTarget(t.node)
    ensures AllTargets(ts + [t])
    ensures IsMissing(t) ==>
              && EmitAll(file, ts + [t])
                 == EmitAll(file, ts) + [Edit(EditEnd(file, t.node), EditEnd(file, t.node), Comment(file, t))]
              && Count(ts + [t], IsMissing) == Count(ts, IsMissing) + 1
              && Count(ts + [t], NeedsRewrite(file)) == Count(ts, NeedsRewrite(file))
    ensures NeedsRewrite(file)(t) ==>
              && EmitAll(file, ts + [t])
                 == EmitAll(file, ts) + [Edit(EditStart(file, t.node), EditEnd(file, t.node), Comment(file, t))]
              && Count(ts + [t], IsMissing) == Count(ts, IsMissing)
              && Count(ts + [t], NeedsRewrite(file)) == Count(ts, NeedsRewrite(file)) + 1
    ensures !IsMissing(t) && !NeedsRewrite(file)(t) ==>
              && EmitAll(file, ts + [t]) == EmitAll(file, ts)
              && Count(ts + [t], IsMissing) == Count(ts, IsMissing)
              && Count(ts + [t], NeedsRewrite(file)) == Count(ts, NeedsRewrite(file))
  {
    OneMoreTarget(file, ts, t);
  }

  // ----- The walk

  class Visitor {
    const file: File
    var classStack: seq<string>
    var edits: seq<Edit>
    var insertions: nat
    var replacements: nat
    ghost var seen: seq<Target>

    function Innermost(): Option<string>
      reads this
    {
      if classStack == [] then None else Some(classStack[|classStack| - 1])
    }

    /** The edits and the counters are those of the targets seen so far. */
    ghost predicate Valid()
      reads this
    {
      && AllTargets(seen)
      && edits == EmitAll(file, seen)
      && insertions == Count(seen, IsMissing)
      && replacements == Count(seen, NeedsRewrite(file))
    }

    constructor (file: File)
      ensures this.file == file && classStack == [] && seen == [] && Valid()
    {
      this.file := file;
      classStack, edits, insertions, replacements, seen := [], [], 0, 0, [];
    }

    method Visit(node: Node)
      requires Valid()
      modifies this
      ensures Valid() && classStack == old(classStack)
      ensures seen == old(seen) + TargetsOf(file, node, old(Innermost()))
      decreases node, 2, 0
    {
      if node.kind.ClassDeclaration? {
        VisitClass(node);
      } else {
        if IsFunctionTarget(node) {
          VisitTarget(node);
        }
        ghost var own := seen;
        VisitChildren(node.children);
        Associate(old(seen), OwnTargets(node, old(Innermost())), TargetsOfAll(file, node.children, old(Innermost())));
        assert own == old(seen) + OwnTargets(node, old(Innermost()));
      }
    }

    method VisitClass(node: Node)
      requires node.kind.ClassDeclaration? && Valid()
      modifies this
      ensures Valid() && classStack == old(classStack)
      ensures seen == old(seen) + TargetsOf(file, node, old(Innermost()))
      decreases node, 1, 0
    {
      classStack := classStack + [ClassName(file, node)];
      VisitChildren(node.children);
      classStack := classStack[..|classStack| - 1];
    }

    method VisitChildren(nodes: seq<Node>)
      requires Valid()
      modifies this
      ensures Valid() && classStack == old(classStack)
      ensures seen == old(seen) + TargetsOfAll(file, nodes, old(Innermost()))
      decreases nodes, 3
    {
      for i := 0 to |nodes|
        invariant Valid() && classStack == old(classStack)
        invariant seen == old(seen) + TargetsOfAll(file, nodes[..i], old(Innermost()))
      {
        assert nodes[..i + 1][..i] == nodes[..i];
        Visit(nodes[i]);
        Associate(old(seen), TargetsOfAll(file, nodes[..i], old(Innermost())),
                  TargetsOf(file, nodes[i], old(Innermost())));
      }
      assert nodes[..|nodes|] == nodes;
    }

    method VisitTarget(node: Node)
      requires IsFunctionTarget(node) && Valid()
      modifies this`edits, this`insertions, this`replacements, this`seen
      ensures Valid() && seen == old(seen) + [Target(node, Innermost())]
    {
      var target := Target(node, Innermost());
      AddEdit(target);
      OneMoreTarget(file, seen, target);
      seen := seen + [target];
    }

    /** What the walk does with a target: the edit and the counter. */
    method AddEdit(target: Target)
      requires IsFunctionTarget(target.node)
      modifies this`edits, this`insertions, this`replacements
      ensures edits == old(edits) + OwnEdits(file, target)
      ensures insertions == old(insertions) + (if IsMissing(target) then 1 else 0)
      ensures replacements == old(replacements) + (if NeedsRewrite(file)(target) then 1 else 0)
    {
      var node := target.node;
      var nodeStart := ReadLineStartIndex(file.source, node.start);
      var functionName, indent := NormalizeFunctionName(file, target), IndentAt(file.source, nodeStart);
      if node.doc.Some? {
        var docStart := ReadLineStartIndex(file.source, node.doc.value.start);
        var rewrite := file.isLowQuality(Slice(file.source, docStart, nodeStart));
        assert docStart == EditStart(file, node) && nodeStart == EditEnd(file, node);
        if rewrite {
          var comment := file.comment(node, functionName, indent);
          edits := edits + [Edit(docStart, nodeStart, comment)];
          replacements := replacements + 1;
        }
      } else {
        var comment := file.comment(node, functionName, indent);
        edits := edits + [Edit(nodeStart, nodeStart, comment)];
        insertions := insertions + 1;
      }
    }
  }

  lemma {:induction false} EditCount(file: File, ts: seq<Target>)
    requires AllTargets(ts)
    ensures |EmitAll(file, ts)| == Count(ts, IsMissing) + Count(ts, NeedsRewrite(file))
  {
    if ts != [] {
      EditCount(file, ts[..|ts| - 1]);
    }
  }
}
