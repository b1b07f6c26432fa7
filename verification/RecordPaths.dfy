/** Which nodes of a tree the function catalog records, and as what. */
module RecordPaths {
  import opened Options
  import opened Seqs
  import opened Text
  import opened Sorting
  import opened CacheKey
  import opened CommentText
  import opened SyntaxTree
  import opened Paths
  import opened Catalog

  // ----- A record, told by the path of its node

  function DeclaredName(file: SourceFile): Node -> string {
    (node: Node) =>
      match node.kind
      case ClassDeclaration(Some(name)) => name
      case _ => "AnonymousClass@" + Decimal(file.lineOf(node.start) + 1)
  }

  function KindOf(kind: Kind): Option<RecordKind> {
    match kind
    case FunctionDeclaration(_) => Some(FunctionRecordKind)
    case MethodDeclaration(_) => Some(MethodRecordKind)
    case ConstructorDeclaration => Some(ConstructorRecordKind)
    case GetAccessor(_) => Some(GetterRecordKind)
    case SetAccessor(_) => Some(SetterRecordKind)
    case VariableDeclaration(Some(_), ArrowFunction) => Some(ArrowRecordKind)
    case VariableDeclaration(Some(_), FunctionExpression) => Some(ExpressionRecordKind)
    case _ => None
  }

  predicate IsMember(kind: RecordKind) {
    kind.MethodRecordKind? || kind.ConstructorRecordKind? || kind.GetterRecordKind? || kind.SetterRecordKind?
  }

  /** The name of a recorded node itself. */
  function OwnName(file: SourceFile, node: Node): string {
    match node.kind
    case FunctionDeclaration(Some(name)) => name
    case FunctionDeclaration(None) => "anonymousFunction@" + Decimal(file.lineOf(node.start) + 1)
    case VariableDeclaration(Some(name), _) => name
    case ConstructorDeclaration => "constructor"
    case MethodDeclaration(Some(name)) => name
    case MethodDeclaration(None) => "anonymousMember"
    case GetAccessor(Some(name)) => "get " + name
    case GetAccessor(None) => "get anonymousMember"
    case SetAccessor(Some(name)) => "set " + name
    case SetAccessor(None) => "set anonymousMember"
    case _ => ""
  }

  /** What a node is called by those below it: a class member by its class too, and a node without record not at all. */
  function LabelAt(file: SourceFile, root: Node, outer: Option<string>, path: Path): string {
    var node := NodeAt(root, path);
    if node.None? || KindOf(node.value.kind).None? then ""
    else if IsMember(KindOf(node.value.kind).value) then
      MemberTitle(ClosestClass(root, path, DeclaredName(file), outer), OwnName(file, node.value))
    else OwnName(file, node.value)
  }

  function MemberTitle(className: Option<string>, own: string): string {
    if className.Some? then className.value + "." + own else "AnonymousClass." + own
  }

  /** The labels of the nodes above, from the outermost, as far as they are not empty; `outer` labels come first. */
  function LabelsAbove(file: SourceFile, root: Node, outer: Option<string>, functions: seq<string>,
                       path: Path): seq<string>
    decreases |path|
  {
    if path == [] then functions
    else
      var above := path[..|path| - 1];
      var name := LabelAt(file, root, outer, above);
      LabelsAbove(file, root, outer, functions, above) + (if name == "" then [] else [name])
  }

  /** Each label, with an arrow behind it. */
  function Trail(labels: seq<string>): string {
    if labels == [] then "" else Trail(labels[..|labels| - 1]) + labels[|labels| - 1] + " > "
  }

  function TitleAt(file: SourceFile, root: Node, outer: Option<string>, functions: seq<string>, path: Path): string {
    var node := NodeAt(root, path);
    if node.None? || KindOf(node.value.kind).None? then ""
    else if IsMember(KindOf(node.value.kind).value) then LabelAt(file, root, outer, path)
    else Trail(LabelsAbove(file, root, outer, functions, path)) + OwnName(file, node.value)
  }

  /** The record of the node at a path, if it is one of those that are recorded. */
  function RecordAt(file: SourceFile, root: Node, outer: Option<string>,
                    functions: seq<string>): Path -> Option<FunctionRecord>
  {
    (path: Path) =>
      var node := NodeAt(root, path);
      if node.None? || KindOf(node.value.kind).None? then None
      else
        var n, kind := node.value, KindOf(node.value.kind).value;
        var isVariable := n.kind.VariableDeclaration?;
        Some(FunctionRecord(
          file.lineOf(n.start) + 1,
          TitleAt(file, root, outer, functions, path),
          kind,
          if isVariable then file.statementIsExported(n) else file.has(n, ExportKeyword),
          if isVariable then file.initializerIsAsync(n)
          else (kind.FunctionRecordKind? || kind.MethodRecordKind?) && file.has(n, AsyncKeyword),
          (kind.MethodRecordKind? || kind.GetterRecordKind? || kind.SetterRecordKind?) && file.has(n, StaticKeyword),
          file.details(n),
          Collaborators(file, n)))
  }

  // ----- The walk records exactly these

  lemma {:induction false} TrailIsJoined(labels: seq<string>)
    ensures Trail(labels) == FunctionLabelFromContext(labels)
  {
    if labels != [] {
      var front, last := labels[..|labels| - 1], labels[|labels| - 1];
      TrailIsJoined(front);
      assert labels == front + [last];
      JoinLast(front, last, " > ");
    }
  }

  lemma {:induction false} JoinLast(front: seq<string>, last: string, separator: string)
    ensures Join(front + [last], separator) == if front == [] then last else Join(front, separator) + separator + last
  {
    if |front| > 0 {
      assert (front + [last])[1..] == front[1..] + [last];
      JoinLast(front[1..], last, separator);
    }
  }

  lemma {:induction false} LabelBelow(file: SourceFile, root: Node, outer: Option<string>, k: nat, p: Path)
    requires k < |root.children|
    ensures LabelAt(file, root, outer, [k] + p)
         == LabelAt(file, root.children[k], HandedDown(root, DeclaredName(file), outer), p)
  {
    assert ([k] + p)[1..] == p;
    ClosestClassBelow(root, k, p, DeclaredName(file), outer);
  }

  /** What a node hands down on the function stack. */
  function LabelsBelow(file: SourceFile, root: Node, outer: Option<string>, functions: seq<string>): seq<string> {
    var name := LabelAt(file, root, outer, []);
    functions + (if name == "" then [] else [name])
  }

  lemma {:induction false} LabelsAboveBelow(file: SourceFile, root: Node, outer: Option<string>, functions: seq<string>,
                                            k: nat, p: Path)
    requires k < |root.children|
    ensures LabelsAbove(file, root, outer, functions, [k] + p)
         == LabelsAbove(file, root.children[k], HandedDown(root, DeclaredName(file), outer),
                        LabelsBelow(file, root, outer, functions), p)
    decreases |p|
  {
    var path := [k] + p;
    if p == [] {
      assert path[..0] == [];
    } else {
      var above := p[..|p| - 1];
      assert path[..|path| - 1] == [k] + above;
      LabelsAboveBelow(file, root, outer, functions, k, above);
      LabelBelow(file, root, outer, k, above);
    }
  }

  lemma {:induction false} RecordBelow(file: SourceFile, root: Node, outer: Option<string>, functions: seq<string>,
                                       k: nat, p: Path)
    requires k < |root.children|
    ensures RecordAt(file, root, outer, functions)([k] + p)
         == RecordAt(file, root.children[k], HandedDown(root, DeclaredName(file), outer),
                     LabelsBelow(file, root, outer, functions))(p)
  {
    assert ([k] + p)[1..] == p;
    LabelBelow(file, root, outer, k, p);
    LabelsAboveBelow(file, root, outer, functions, k, p);
  }

  function OwnRecords(file: SourceFile, node: Node, outer: Option<string>,
                      functions: seq<string>): seq<FunctionRecord>
  {
    var naming := NamingOf(file, node, outer, functions);
    if node.kind.ClassDeclaration? || naming.None? then [] else [RecordOf(file, node, naming.value)]
  }

  /** The naming of a node is what stands at its own, empty path. */
  lemma OwnKindIs(file: SourceFile, node: Node, outer: Option<string>, functions: seq<string>)
    ensures var naming, kind := NamingOf(file, node, outer, functions), KindOf(node.kind);
            (naming.Some? <==> kind.Some?) && (kind.Some? ==> naming.value.kind == kind.value)
  {
  }

  lemma OwnLabelIs(file: SourceFile, node: Node, outer: Option<string>, functions: seq<string>)
    requires KindOf(node.kind).Some? && NamingOf(file, node, outer, functions).Some?
    ensures NamingOf(file, node, outer, functions).value.childLabel == LabelAt(file, node, outer, [])
  {
    assert NodeAt(node, []) == Some(node);
    if IsMember(KindOf(node.kind).value) {
      assert ClosestClass(node, [], DeclaredName(file), outer) == outer;
      MemberLabelIs(file, node, outer, functions);
    }
  }

  lemma MemberLabelIs(file: SourceFile, node: Node, outer: Option<string>, functions: seq<string>)
    requires KindOf(node.kind).Some? && IsMember(KindOf(node.kind).value)
    requires NamingOf(file, node, outer, functions).Some?
    ensures NamingOf(file, node, outer, functions).value.childLabel == MemberTitle(outer, OwnName(file, node))
  {
    match node.kind
    case MethodDeclaration(name) => MemberTitles(outer, name.GetOr("anonymousMember"));
    case ConstructorDeclaration => ConstructorTitle(outer);
    case GetAccessor(name) => GetterTitle(outer, name);
    case SetAccessor(name) => SetterTitle(outer, name);
  }

  lemma ConstructorTitle(outer: Option<string>)
    ensures outer.GetOr("AnonymousClass") + ".constructor" == MemberTitle(outer, "constructor")
  {
    MemberTitles(outer, "constructor");
    assert "." + "constructor" == ".constructor";
    Associate(outer.GetOr("AnonymousClass"), ".", "constructor");
  }

  lemma GetterTitle(outer: Option<string>, name: Option<string>)
    ensures outer.GetOr("AnonymousClass") + ".get " + name.GetOr("anonymousMember")
         == MemberTitle(outer, if name.Some? then "get " + name.value else "get anonymousMember")
  {
    assert "get " + "anonymousMember" == "get anonymousMember" && "." + "get " == ".get ";
    AccessorTitles(outer, "get ", name.GetOr("anonymousMember"));
  }

  lemma SetterTitle(outer: Option<string>, name: Option<string>)
    ensures outer.GetOr("AnonymousClass") + ".set " + name.GetOr("anonymousMember")
         == MemberTitle(outer, if name.Some? then "set " + name.value else "set anonymousMember")
  {
    assert "set " + "anonymousMember" == "set anonymousMember" && "." + "set " == ".set ";
    AccessorTitles(outer, "set ", name.GetOr("anonymousMember"));
  }

  lemma OwnTitleIs(file: SourceFile, node: Node, outer: Option<string>, functions: seq<string>)
    requires KindOf(node.kind).Some? && NamingOf(file, node, outer, functions).Some?
    ensures NamingOf(file, node, outer, functions).value.title == TitleAt(file, node, outer, functions, [])
  {
    assert NodeAt(node, []) == Some(node) && LabelsAbove(file, node, outer, functions, []) == functions;
    if IsMember(KindOf(node.kind).value) {
      OwnLabelIs(file, node, outer, functions);
    } else {
      TrailIsJoined(functions);
    }
  }

  lemma MemberTitles(outer: Option<string>, own: string)
    ensures MemberTitle(outer, own) == outer.GetOr("AnonymousClass") + "." + own
  {
    assert "AnonymousClass" + "." == "AnonymousClass.";
  }

  lemma AccessorTitles(outer: Option<string>, prefix: string, name: string)
    ensures MemberTitle(outer, prefix + name) == outer.GetOr("AnonymousClass") + ("." + prefix) + name
  {
    MemberTitles(outer, prefix + name);
  }

  lemma OwnFlagsAre(file: SourceFile, node: Node, outer: Option<string>, functions: seq<string>)
    requires NamingOf(file, node, outer, functions).Some? && RecordAt(file, node, outer, functions)([]).Some?
    ensures var naming, own := NamingOf(file, node, outer, functions).value,
                RecordAt(file, node, outer, functions)([]).value;
            naming.exported == own.exported && naming.isAsync == own.isAsync && naming.isStatic == own.isStatic
  {
    assert NodeAt(node, []) == Some(node);
    match node.kind
    case FunctionDeclaration(_) =>
    case MethodDeclaration(_) =>
    case ConstructorDeclaration =>
    case GetAccessor(_) =>
    case SetAccessor(_) =>
    case VariableDeclaration(_, _) =>
    case _ =>
  }

  lemma OwnRecordIs(file: SourceFile, node: Node, outer: Option<string>, functions: seq<string>)
    ensures var own := RecordAt(file, node, outer, functions)([]);
            OwnRecords(file, node, outer, functions) == if own.Some? then [own.value] else []
  {
    OwnKindIs(file, node, outer, functions);
    assert NodeAt(node, []) == Some(node);
    if KindOf(node.kind).Some? {
      OwnTitleIs(file, node, outer, functions);
      OwnFlagsAre(file, node, outer, functions);
    }
  }

  lemma LabelsBelowAre(file: SourceFile, node: Node, outer: Option<string>, functions: seq<string>)
    ensures LabelsBelow(file, node, outer, functions)
         == if node.kind.ClassDeclaration? then functions
            else ChildContext(functions, NamingOf(file, node, outer, functions))
  {
    OwnKindIs(file, node, outer, functions);
    if KindOf(node.kind).Some? {
      OwnLabelIs(file, node, outer, functions);
    }
  }

  lemma {:induction false} ChildrenAreListed(file: SourceFile, node: Node, outer: Option<string>,
                                             functions: seq<string>,
                                             n: nat)
    returns (paths: seq<Path>)
    requires n <= |node.children|
    ensures ListsThrough(RecordAt(file, node, outer, functions), 0, n,
                         RecordsOfAll(file, node.children[..n], HandedDown(node, DeclaredName(file), outer),
                                      LabelsBelow(file, node, outer, functions)), paths)
    decreases node, n
  {
    var at := RecordAt(file, node, outer, functions);
    var inner, labels := HandedDown(node, DeclaredName(file), outer), LabelsBelow(file, node, outer, functions);
    if n == 0 {
      ListsNone(at, 0);
      paths := [];
    } else {
      var k, child := n - 1, node.children[n - 1];
      var front := ChildrenAreListed(file, node, outer, functions, k);
      var below := RecordsAreListed(file, child, inner, labels);
      forall p: Path ensures RecordAt(file, child, inner, labels)(p) == at([k] + p) {
        RecordBelow(file, node, outer, functions, k, p);
      }
      ListsUnder(at, k, RecordAt(file, child, inner, labels), RecordsOf(file, child, inner, labels), below);
      assert node.children[..n][..k] == node.children[..k];
      ListsMore(at, 0, k, n, RecordsOfAll(file, node.children[..k], inner, labels), front,
                RecordsOf(file, child, inner, labels), Under(k, below));
      paths := front + Under(k, below);
    }
  }

  /** The walk records every function, member and variable with a function, and nothing else, each once, in order. */
  lemma {:induction false} RecordsAreListed(file: SourceFile, node: Node, outer: Option<string>, functions: seq<string>)
    returns (paths: seq<Path>)
    ensures Lists(RecordAt(file, node, outer, functions), RecordsOf(file, node, outer, functions), paths)
    decreases node, |node.children| + 1
  {
    var at, n := RecordAt(file, node, outer, functions), |node.children|;
    var inner, labels := HandedDown(node, DeclaredName(file), outer), LabelsBelow(file, node, outer, functions);
    var below := ChildrenAreListed(file, node, outer, functions, n);
    assert node.children[..n] == node.children;
    OwnRecordIs(file, node, outer, functions);
    LabelsBelowAre(file, node, outer, functions);
    forall p | at(p).Some? ensures p == [] || Through(p, 0, n) {
      assert NodeAt(node, p).Some?;
    }
    var own := OwnRecords(file, node, outer, functions);
    ListsOwn(at, n, own, RecordsOfAll(file, node.children, inner, labels), below);
    assert RecordsOf(file, node, outer, functions) == own + RecordsOfAll(file, node.children, inner, labels);
    paths := (if own == [] then [] else [[]]) + below;
  }

  // ----- The identifiers of a subtree

  function IdentifierAt(root: Node): Path -> Option<string> {
    (path: Path) =>
      match NodeAt(root, path)
      case Some(node) => if node.kind.Identifier? then Some(node.kind.text) else None
      case None => None
  }

  lemma {:induction false} IdentifiersBelow(node: Node, n: nat) returns (paths: seq<Path>)
    requires n <= |node.children|
    ensures ListsThrough(IdentifierAt(node), 0, n, IdentifiersOfAll(node.children[..n]), paths)
    decreases node, n
  {
    if n == 0 {
      ListsNone(IdentifierAt(node), 0);
      paths := [];
    } else {
      var k, child := n - 1, node.children[n - 1];
      var front := IdentifiersBelow(node, k);
      var below := IdentifiersAreListed(child);
      forall p: Path ensures IdentifierAt(child)(p) == IdentifierAt(node)([k] + p) {
        assert ([k] + p)[1..] == p;
      }
      ListsUnder(IdentifierAt(node), k, IdentifierAt(child), IdentifiersOf(child), below);
      assert node.children[..n][..k] == node.children[..k];
      ListsMore(IdentifierAt(node), 0, k, n, IdentifiersOfAll(node.children[..k]), front, IdentifiersOf(child),
                Under(k, below));
      paths := front + Under(k, below);
    }
  }

  lemma {:induction false} IdentifiersAreListed(node: Node) returns (paths: seq<Path>)
    ensures Lists(IdentifierAt(node), IdentifiersOf(node), paths)
    decreases node, |node.children| + 1
  {
    var below := IdentifiersBelow(node, |node.children|);
    assert node.children[..|node.children|] == node.children;
    var own := if node.kind.Identifier? then [node.kind.text] else [];
    ListsOwn(IdentifierAt(node), |node.children|, own, IdentifiersOfAll(node.children), below);
    paths := (if own == [] then [] else [[]]) + below;
  }

  /** Some identifier at or below the node is the local name of the import. */
  ghost predicate NamedBelow(imports: map<string, ImportBinding>, node: Node, b: ImportBinding) {
    exists path: Path ::
      IdentifierAt(node)(path).Some? && IdentifierAt(node)(path).value in imports
      && imports[IdentifierAt(node)(path).value] == b
  }

  /** The collaborators of a node are exactly the imports that some identifier in its subtree names. */
  lemma {:induction false} CollaboratorsNamedBelow(file: SourceFile, node: Node, b: ImportBinding)
    requires WellFiled(file.imports)
    ensures b in Collaborators(file, node) <==> NamedBelow(file.imports, node, b)
  {
    var names := IdentifiersOf(node);
    var paths := IdentifiersAreListed(node);
    CollaboratorsExact(file, node, b);
    if Names(file.imports, names, b) {
      var name :| name in names && name in file.imports && file.imports[name] == b;
      var i :| 0 <= i < |names| && names[i] == name;
      assert IdentifierAt(node)(paths[i]) == Some(name);
    }
    if NamedBelow(file.imports, node, b) {
      var path: Path :| IdentifierAt(node)(path).Some? && IdentifierAt(node)(path).value in file.imports
                        && file.imports[IdentifierAt(node)(path).value] == b;
      var i :| 0 <= i < |paths| && paths[i] == path;
      assert names[i] == IdentifierAt(node)(path).value;
    }
  }

  // ----- The whole file

  /**
   Every function of the file, wherever it is, is recorded once, and nothing else; the records come by line and name.
   */
  method ExtractFunctionRecords(file: SourceFile, root: Node) returns (sorted: seq<FunctionRecord>)
    ensures exists rs, paths :: Lists(RecordAt(file, root, None, []), rs, paths) && multiset(sorted) == multiset(rs)
    ensures sorted == Sort(NotLater(file.compare), RecordsOf(file, root, None, []))
    ensures IsLocaleCompare(file.compare) ==> forall i, j :: 0 <= i < j < |sorted| ==>
              || sorted[i].line < sorted[j].line
              || (sorted[i].line == sorted[j].line && file.compare(sorted[i].name, sorted[j].name) <= 0)
  {
    var extractor := new Extractor(file);
    extractor.Visit(root);
    assert extractor.records == RecordsOf(file, root, None, []);
    ghost var paths := RecordsAreListed(file, root, None, []);
    RecordsAreSorted(file, extractor.records);
    sorted := Sort(NotLater(file.compare), extractor.records);
  }

  lemma RecordsAreSorted(file: SourceFile, records: seq<FunctionRecord>)
    ensures multiset(Sort(NotLater(file.compare), records)) == multiset(records)
    ensures IsLocaleCompare(file.compare) ==>
              var sorted := Sort(NotLater(file.compare), records);
              forall i, j :: 0 <= i < j < |sorted| ==>
                || sorted[i].line < sorted[j].line
                || (sorted[i].line == sorted[j].line && file.compare(sorted[i].name, sorted[j].name) <= 0)
  {
    SortRearranges(NotLater(file.compare), records);
    if IsLocaleCompare(file.compare) {
      NotLaterOrders(file.compare);
      SortSorts(NotLater(file.compare), records);
      var sorted := Sort(NotLater(file.compare), records);
      forall i, j | 0 <= i < j < |sorted|
        ensures sorted[i].line < sorted[j].line
                || (sorted[i].line == sorted[j].line && file.compare(sorted[i].name, sorted[j].name) <= 0)
      {
        SortedPairs(NotLater(file.compare), sorted, i, j);
      }
    }
  }

  lemma NotLaterOrders(compare: (string, string) -> int)
    requires IsLocaleCompare(compare)
    ensures TotalPreorder(NotLater(compare))
  {
    var le := NotLater(compare);
    forall a: FunctionRecord, b: FunctionRecord ensures le(a, b) || le(b, a) {
      assert compare(a.name, b.name) > 0 <==> compare(b.name, a.name) < 0;
    }
    forall a: FunctionRecord, b: FunctionRecord, c: FunctionRecord | le(a, b) && le(b, c) ensures le(a, c) {
      if a.line == b.line == c.line {
        assert compare(a.name, c.name) <= 0;
      }
    }
  }
}
