/** The function catalog: `extractFunctionRecords` with its two stacks, and `collectCollaborators`. */
module Catalog {
  import opened Options
  import opened Seqs
  import opened Text
  import opened Sorting
  import opened CacheKey
  import opened CommentText
  import opened SyntaxTree

  datatype Modifier = ExportKeyword | AsyncKeyword | StaticKeyword

  /** What other functions read off a node. */
  datatype Details = Details(
    hasJsDoc: bool,
    summary: string,
    signature: string,
    parameters: seq<string>,
    returnType: Option<string>)

  /** The file as the walk sees it.  `compare` is the locale's comparison of strings. */
  datatype SourceFile = SourceFile(
    lineOf: nat -> nat,
    has: (Node, Modifier) -> bool,
    statementIsExported: Node -> bool,
    initializerIsAsync: Node -> bool,
    details: Node -> Details,
    imports: map<string, ImportBinding>,
    compare: (string, string) -> int)

  datatype RecordKind =
    | FunctionRecordKind | MethodRecordKind | ConstructorRecordKind | GetterRecordKind | SetterRecordKind
    | ArrowRecordKind | ExpressionRecordKind

  datatype FunctionRecord = FunctionRecord(
    line: nat,
    name: string,
    kind: RecordKind,
    exported: bool,
    isAsync: bool,
    isStatic: bool,
    details: Details,
    collaborators: seq<ImportBinding>)

  // ----- Collaborators

  function KeyOf(b: ImportBinding): string {
    b.source + "::" + b.importedName + "::" + b.localName
  }

  datatype Entry = Entry(key: string, value: ImportBinding)

  /** `map.set(key, value)`: a known key keeps its place. */
  function SetEntry(entries: seq<Entry>, e: Entry): seq<Entry> {
    if entries == [] then [e]
    else if entries[0].key == e.key then [e] + entries[1..]
    else [entries[0]] + SetEntry(entries[1..], e)
  }

  function Note(imports: map<string, ImportBinding>, entries: seq<Entry>, name: string): seq<Entry> {
    if name in imports then SetEntry(entries, Entry(KeyOf(imports[name]), imports[name])) else entries
  }

  function NoteAll(imports: map<string, ImportBinding>, entries: seq<Entry>, names: seq<string>): seq<Entry> {
    if names == [] then entries else Note(imports, NoteAll(imports, entries, names[..|names| - 1]), names[|names| - 1])
  }

  /** The identifiers of a subtree, in pre-order. */
  function IdentifiersOf(node: Node): seq<string>
    decreases node, 0
  {
    (if node.kind.Identifier? then [node.kind.text] else []) + IdentifiersOfAll(node.children)
  }

  function IdentifiersOfAll(nodes: seq<Node>): seq<string>
    decreases nodes, 1
  {
    if nodes == [] then [] else IdentifiersOfAll(nodes[..|nodes| - 1]) + IdentifiersOf(nodes[|nodes| - 1])
  }

  function Values(entries: seq<Entry>): seq<ImportBinding> {
    seq(|entries|, i requires 0 <= i < |entries| => entries[i].value)
  }

  /** By source, then by local name. */
  function NotAfter(compare: (string, string) -> int): (ImportBinding, ImportBinding) -> bool {
    (left: ImportBinding, right: ImportBinding) =>
      var sourceCompare := compare(left.source, right.source);
      if sourceCompare != 0 then sourceCompare < 0 else compare(left.localName, right.localName) <= 0
  }

  function Collaborators(file: SourceFile, node: Node): seq<ImportBinding> {
    Sort(NotAfter(file.compare), Values(NoteAll(file.imports, [], IdentifiersOf(node))))
  }

  lemma {:induction false} NoteAllConcat(imports: map<string, ImportBinding>, entries: seq<Entry>, a: seq<string>,
                                         b: seq<string>)
    ensures NoteAll(imports, entries, a + b) == NoteAll(imports, NoteAll(imports, entries, a), b)
  {
    if b == [] {
      assert a + b == a;
    } else {
      assert (a + b)[..|a + b| - 1] == a + b[..|b| - 1];
      NoteAllConcat(imports, entries, a, b[..|b| - 1]);
    }
  }

  class Collector {
    const imports: map<string, ImportBinding>
    var collaboratorByKey: seq<Entry>

    constructor (imports: map<string, ImportBinding>)
      ensures this.imports == imports && collaboratorByKey == []
    {
      this.imports := imports;
      collaboratorByKey := [];
    }

    method Visit(current: Node)
      modifies this
      ensures collaboratorByKey == NoteAll(imports, old(collaboratorByKey), IdentifiersOf(current))
      decreases current, 0
    {
      ghost var start := collaboratorByKey;
      ghost var own := if current.kind.Identifier? then [current.kind.text] else [];
      if current.kind.Identifier? && current.kind.text in imports {
        var collaborator := imports[current.kind.text];
        collaboratorByKey := SetEntry(collaboratorByKey, Entry(KeyOf(collaborator), collaborator));
      }
      assert collaboratorByKey == NoteAll(imports, start, own) by {
        if own != [] {
          assert own[..0] == [];
        }
      }
      VisitChildren(current.children);
      NoteAllConcat(imports, start, own, IdentifiersOfAll(current.children));
    }

    method VisitChildren(nodes: seq<Node>)
      modifies this
      ensures collaboratorByKey == NoteAll(imports, old(collaboratorByKey), IdentifiersOfAll(nodes))
      decreases nodes, 1
    {
      ghost var start := collaboratorByKey;
      for i := 0 to |nodes|
        invariant collaboratorByKey == NoteAll(imports, start, IdentifiersOfAll(nodes[..i]))
      {
        assert nodes[..i + 1][..i] == nodes[..i];
        Visit(nodes[i]);
        NoteAllConcat(imports, start, IdentifiersOfAll(nodes[..i]), IdentifiersOf(nodes[i]));
      }
      assert nodes[..|nodes|] == nodes;
    }
  }

  method CollectCollaborators(file: SourceFile, node: Node) returns (collaborators: seq<ImportBinding>)
    ensures collaborators == Collaborators(file, node)
  {
    var collector := new Collector(file.imports);
    collector.Visit(node);
    collaborators := Sort(NotAfter(file.compare), Values(collector.collaboratorByKey));
  }

  // ----- The collaborators are exactly the imports named below the node

  /** Imports are filed under their local name, which is an identifier and so holds no colon. */
  ghost predicate WellFiled(imports: map<string, ImportBinding>) {
    forall name :: name in imports ==> imports[name].localName == name && ':' !in name
  }

  ghost predicate IsImport(imports: map<string, ImportBinding>, b: ImportBinding) {
    b.localName in imports && imports[b.localName] == b
  }

  lemma LastColonSplits(x: string, a: string, y: string, b: string)
    requires ':' !in a && ':' !in b && x + ":" + a == y + ":" + b
    ensures a == b
  {
    var s := x + ":" + a;
    assert s[|x|] == ':' && s[|y|] == ':';
    assert forall i :: |x| < i < |s| ==> s[i] == a[i - |x| - 1];
    assert forall i :: |y| < i < |s| ==> s[i] == b[i - |y| - 1];
    assert |x| == |y|;
    assert a == s[|x| + 1..] && b == s[|y| + 1..];
  }

  /** Two imports never share a key, whatever colons their sources and imported names contain. */
  lemma ImportKeysInjective(imports: map<string, ImportBinding>, b: ImportBinding, c: ImportBinding)
    requires WellFiled(imports) && IsImport(imports, b) && IsImport(imports, c) && KeyOf(b) == KeyOf(c)
    ensures b == c
  {
    var x, y := b.source + "::" + b.importedName + ":", c.source + "::" + c.importedName + ":";
    assert KeyOf(b) == x + ":" + b.localName;
    assert KeyOf(c) == y + ":" + c.localName;
    LastColonSplits(x, b.localName, y, c.localName);
  }

  ghost predicate KeysDiffer(entries: seq<Entry>) {
    forall i, j :: 0 <= i < j < |entries| ==> entries[i].key != entries[j].key
  }

  /** Every entry is an import under its own key, and no key occurs twice. */
  ghost predicate Sound(imports: map<string, ImportBinding>, entries: seq<Entry>) {
    && (forall x :: x in entries ==> x.key == KeyOf(x.value) && IsImport(imports, x.value))
    && KeysDiffer(entries)
  }

  ghost predicate Holds(entries: seq<Entry>, b: ImportBinding) {
    Entry(KeyOf(b), b) in entries
  }

  lemma {:induction false} SetEntryKeepsKeys(entries: seq<Entry>, e: Entry)
    requires KeysDiffer(entries)
    ensures KeysDiffer(SetEntry(entries, e))
    ensures forall x :: x in SetEntry(entries, e) ==> x == e || (x in entries && x.key != e.key)
    ensures forall x :: x in entries && x.key != e.key ==> x in SetEntry(entries, e)
    ensures e in SetEntry(entries, e)
  {
    if entries != [] && entries[0].key != e.key {
      var tail, updated := entries[1..], SetEntry(entries[1..], e);
      assert KeysDiffer(tail);
      SetEntryKeepsKeys(tail, e);
      forall x | x in updated ensures x.key != entries[0].key {
        if x != e {
          var k :| 0 <= k < |tail| && tail[k] == x;
          assert entries[k + 1] == x;
        }
      }
    }
  }

  lemma {:induction false} NoteAdds(imports: map<string, ImportBinding>, entries: seq<Entry>, name: string,
                                    b: ImportBinding)
    requires WellFiled(imports) && Sound(imports, entries)
    ensures Sound(imports, Note(imports, entries, name))
    ensures Holds(Note(imports, entries, name), b) <==> Holds(entries, b) || (name in imports && imports[name] == b)
  {
    if name in imports {
      var e := Entry(KeyOf(imports[name]), imports[name]);
      SetEntryKeepsKeys(entries, e);
      if Holds(entries, b) && KeyOf(b) == e.key {
        ImportKeysInjective(imports, b, imports[name]);
      }
    }
  }

  ghost predicate Names(imports: map<string, ImportBinding>, names: seq<string>, b: ImportBinding) {
    exists name :: name in names && name in imports && imports[name] == b
  }

  lemma {:induction false} NoteAllAdds(imports: map<string, ImportBinding>, names: seq<string>, b: ImportBinding)
    requires WellFiled(imports)
    ensures Sound(imports, NoteAll(imports, [], names))
    ensures Holds(NoteAll(imports, [], names), b) <==> Names(imports, names, b)
  {
    if names != [] {
      var front, last := names[..|names| - 1], names[|names| - 1];
      NoteAllAdds(imports, front, b);
      NoteAdds(imports, NoteAll(imports, [], front), last, b);
      assert names == front + [last];
    }
  }

  lemma ValuesHold(imports: map<string, ImportBinding>, entries: seq<Entry>, b: ImportBinding)
    requires Sound(imports, entries)
    ensures b in Values(entries) <==> Holds(entries, b)
    ensures NoDuplicates(Values(entries))
  {
    if b in Values(entries) {
      var i :| 0 <= i < |entries| && Values(entries)[i] == b;
      assert entries[i] in entries;
    }
    if Holds(entries, b) {
      var i :| 0 <= i < |entries| && entries[i] == Entry(KeyOf(b), b);
      assert Values(entries)[i] == b;
    }
    forall i, j | 0 <= i < j < |entries| ensures Values(entries)[i] != Values(entries)[j] {
      assert entries[i] in entries && entries[j] in entries;
    }
  }

  predicate Differ(a: ImportBinding, b: ImportBinding) { a != b }

  lemma {:induction false} PairwiseDiffer(s: seq<ImportBinding>)
    requires Pairwise(Differ, s)
    ensures NoDuplicates(s)
  {
    if s != [] {
      PairwiseDiffer(s[1..]);
      forall i, j | 0 <= i < j < |s| ensures s[i] != s[j] {
        assert s[j] == s[1..][j - 1] && (i > 0 ==> s[i] == s[1..][i - 1]);
        assert i == 0 ==> s[j] in s[1..] && Differ(s[j], s[0]);
      }
    }
  }

  /** The collaborators of a node are exactly the imports that its subtree names, each once. */
  lemma CollaboratorsExact(file: SourceFile, node: Node, b: ImportBinding)
    requires WellFiled(file.imports)
    ensures b in Collaborators(file, node) <==> Names(file.imports, IdentifiersOf(node), b)
    ensures NoDuplicates(Collaborators(file, node))
  {
    var entries := NoteAll(file.imports, [], IdentifiersOf(node));
    NoteAllAdds(file.imports, IdentifiersOf(node), b);
    ValuesHold(file.imports, entries, b);
    SortMember(NotAfter(file.compare), Values(entries), b);
    SortPairwise(NotAfter(file.compare), Differ, Values(entries));
    PairwiseDiffer(Collaborators(file, node));
  }

  /** A comparison of strings that orders them, some perhaps as equal. */
  ghost predicate IsLocaleCompare(compare: (string, string) -> int) {
    && (forall a, b :: compare(a, b) < 0 <==> compare(b, a) > 0)
    && (forall a, b, c :: compare(a, b) <= 0 && compare(b, c) <= 0 ==> compare(a, c) <= 0)
  }

  lemma NotAfterOrders(compare: (string, string) -> int)
    requires IsLocaleCompare(compare)
    ensures TotalPreorder(NotAfter(compare))
  {
    var le := NotAfter(compare);
    forall a: ImportBinding, b: ImportBinding ensures le(a, b) || le(b, a) {
      assert compare(a.source, b.source) < 0 <==> compare(b.source, a.source) > 0;
      assert compare(b.source, a.source) < 0 <==> compare(a.source, b.source) > 0;
      assert compare(a.localName, b.localName) > 0 <==> compare(b.localName, a.localName) < 0;
    }
    forall a: ImportBinding, b: ImportBinding, c: ImportBinding | le(a, b) && le(b, c) ensures le(a, c) {
      NotAfterTransitive(compare, a, b, c);
    }
  }

  lemma NotAfterTransitive(compare: (string, string) -> int, a: ImportBinding, b: ImportBinding, c: ImportBinding)
    requires IsLocaleCompare(compare) && NotAfter(compare)(a, b) && NotAfter(compare)(b, c)
    ensures NotAfter(compare)(a, c)
  {
    assert compare(a.source, b.source) <= 0 && compare(b.source, c.source) <= 0;
    assert compare(a.source, c.source) <= 0;
    if compare(a.source, c.source) == 0 {
      assert compare(c.source, a.source) <= 0;
      assert compare(c.source, b.source) <= 0 && compare(b.source, a.source) <= 0;
      assert compare(a.source, b.source) == 0 && compare(b.source, c.source) == 0;
      assert compare(a.localName, c.localName) <= 0;
    }
  }

  /** They are listed by source and local name. */
  lemma CollaboratorsSorted(file: SourceFile, node: Node)
    requires IsLocaleCompare(file.compare)
    ensures SortedBy(NotAfter(file.compare), Collaborators(file, node))
  {
    NotAfterOrders(file.compare);
    SortSorts(NotAfter(file.compare), Values(NoteAll(file.imports, [], IdentifiersOf(node))));
  }

  // ----- The records, with the contexts as parameters

  function FunctionLabelFromContext(parts: seq<string>): string {
    if parts == [] then "" else Join(parts, " > ") + " > "
  }

  function LineNumber(file: SourceFile, node: Node): nat {
    file.lineOf(node.start) + 1
  }

  function ClassName(file: SourceFile, node: Node): string
    requires node.kind.ClassDeclaration?
  {
    node.kind.className.GetOr("AnonymousClass@" + Decimal(LineNumber(file, node)))
  }

  /** What a node is recorded as, and the name its children see on the function stack. */
  datatype Naming = Naming(title: string, kind: RecordKind, exported: bool, isAsync: bool, isStatic: bool,
                           childLabel: string)

  function MemberNaming(file: SourceFile, node: Node, title: string, kind: RecordKind, isAsync: bool,
                        isStatic: bool): Naming
  {
    Naming(title, kind, file.has(node, ExportKeyword), isAsync, isStatic, title)
  }

  function NamingOf(file: SourceFile, node: Node, innermost: Option<string>, functions: seq<string>): Option<Naming> {
    var className := innermost.GetOr("AnonymousClass");
    match node.kind
    case FunctionDeclaration(name) =>
      var functionName := name.GetOr("anonymousFunction@" + Decimal(LineNumber(file, node)));
      Some(Naming(FunctionLabelFromContext(functions) + functionName, FunctionRecordKind, file.has(node, ExportKeyword),
                  file.has(node, AsyncKeyword), false, functionName))
    case MethodDeclaration(name) =>
      Some(MemberNaming(file, node, className + "." + name.GetOr("anonymousMember"), MethodRecordKind,
                        file.has(node, AsyncKeyword), file.has(node, StaticKeyword)))
    case ConstructorDeclaration =>
      Some(MemberNaming(file, node, className + ".constructor", ConstructorRecordKind, false, false))
    case GetAccessor(name) =>
      Some(MemberNaming(file, node, className + ".get " + name.GetOr("anonymousMember"), GetterRecordKind, false,
                        file.has(node, StaticKeyword)))
    case SetAccessor(name) =>
      Some(MemberNaming(file, node, className + ".set " + name.GetOr("anonymousMember"), SetterRecordKind, false,
                        file.has(node, StaticKeyword)))
    case VariableDeclaration(name, initializer) =>
      if name.None? || initializer.NoFunction? then None
      else Some(Naming(FunctionLabelFromContext(functions) + name.value,
                       if initializer.ArrowFunction? then ArrowRecordKind else ExpressionRecordKind,
                       file.statementIsExported(node), file.initializerIsAsync(node), false, name.value))
    case _ => None
  }

  function RecordOf(file: SourceFile, node: Node, naming: Naming): FunctionRecord {
    FunctionRecord(LineNumber(file, node), naming.title, naming.kind, naming.exported, naming.isAsync, naming.isStatic,
                   file.details(node), Collaborators(file, node))
  }

  /** The function context of a node's children.  An empty label is falsy, and is not pushed. */
  function ChildContext(functions: seq<string>, naming: Option<Naming>): seq<string> {
    if naming.Some? && naming.value.childLabel != "" then functions + [naming.value.childLabel] else functions
  }

  function RecordsOf(file: SourceFile, node: Node, innermost: Option<string>,
                     functions: seq<string>): seq<FunctionRecord>
    decreases node, 0, 1
  {
    if node.kind.ClassDeclaration? then RecordsOfAll(file, node.children, Some(ClassName(file, node)), functions)
    else
      RecordsUnder(file, node, innermost, functions, NamingOf(file, node, innermost, functions))
  }

  /** The record of a node that is no class, if it has a name to go by, and those below it. */
  function RecordsUnder(file: SourceFile, node: Node, innermost: Option<string>, functions: seq<string>,
                        naming: Option<Naming>): seq<FunctionRecord>
    decreases node, 0, 0
  {
    (if naming.Some? then [RecordOf(file, node, naming.value)] else [])
    + RecordsOfAll(file, node.children, innermost, ChildContext(functions, naming))
  }

  function RecordsOfAll(file: SourceFile, nodes: seq<Node>, innermost: Option<string>,
                        functions: seq<string>): seq<FunctionRecord>
    decreases nodes, 1
  {
    if nodes == [] then []
    else RecordsOfAll(file, nodes[..|nodes| - 1], innermost, functions)
         + RecordsOf(file, nodes[|nodes| - 1], innermost, functions)
  }

  /** By line, then by name. */
  function NotLater(compare: (string, string) -> int): (FunctionRecord, FunctionRecord) -> bool {
    (left: FunctionRecord, right: FunctionRecord) =>
      if left.line != right.line then left.line < right.line else compare(left.name, right.name) <= 0
  }

  // ----- The walk with its two stacks

  class Extractor {
    const file: SourceFile
    var records: seq<FunctionRecord>
    var classStack: seq<string>
    var functionStack: seq<string>

    function Innermost(): Option<string>
      reads this
    {
      if classStack == [] then None else Some(classStack[|classStack| - 1])
    }

    constructor (file: SourceFile)
      ensures this.file == file && records == [] && classStack == [] && functionStack == []
    {
      this.file := file;
      records, classStack, functionStack := [], [], [];
    }

    method PushFunctionRecord(node: Node, naming: Naming)
      modifies this`records
      ensures records == old(records) + [RecordOf(file, node, naming)]
    {
      var collaborators := CollectCollaborators(file, node);
      records := records + [FunctionRecord(file.lineOf(node.start) + 1, naming.title, naming.kind, naming.exported,
                                           naming.isAsync, naming.isStatic, file.details(node), collaborators)];
    }

    method Visit(node: Node)
      modifies this
      ensures classStack == old(classStack) && functionStack == old(functionStack)
      ensures records == old(records) + RecordsOf(file, node, old(Innermost()), old(functionStack))
      decreases node, 2
    {
      if node.kind.ClassDeclaration? {
        VisitClass(node);
      } else {
        VisitOther(node);
      }
    }

    method VisitClass(node: Node)
      requires node.kind.ClassDeclaration?
      modifies this
      ensures classStack == old(classStack) && functionStack == old(functionStack)
      ensures records == old(records) + RecordsOf(file, node, old(Innermost()), old(functionStack))
      decreases node, 1
    {
      classStack := classStack + [ClassName(file, node)];
      VisitChildren(node.children);
      classStack := classStack[..|classStack| - 1];
    }

    method VisitOther(node: Node)
      requires !node.kind.ClassDeclaration?
      modifies this
      ensures classStack == old(classStack) && functionStack == old(functionStack)
      ensures records == old(records) + RecordsOf(file, node, old(Innermost()), old(functionStack))
      decreases node, 1
    {
      var naming := NamingOf(file, node, Innermost(), functionStack);
      VisitNamed(node, naming);
    }

    method VisitNamed(node: Node, naming: Option<Naming>)
      modifies this
      ensures classStack == old(classStack) && functionStack == old(functionStack)
      ensures records == old(records) + RecordsUnder(file, node, old(Innermost()), old(functionStack), naming)
      decreases node, 0, 1
    {
      ghost var start, own := records, if naming.Some? then [RecordOf(file, node, naming.value)] else [];
      if naming.Some? {
        PushFunctionRecord(node, naming.value);
      }
      assert records == start + own;
      Descend(node, naming);
      Associate(start, own, RecordsOfAll(file, node.children, old(Innermost()),
                                         ChildContext(old(functionStack), naming)));
    }

    method Descend(node: Node, naming: Option<Naming>)
      modifies this
      ensures classStack == old(classStack) && functionStack == old(functionStack)
      ensures records
           == old(records) + RecordsOfAll(file, node.children, old(Innermost()),
                                          ChildContext(old(functionStack), naming))
      decreases node, 0, 0
    {
      if naming.Some? && naming.value.childLabel != "" {
        functionStack := functionStack + [naming.value.childLabel];
        VisitChildren(node.children);
        functionStack := functionStack[..|functionStack| - 1];
        return;
      }
      VisitChildren(node.children);
    }

    method VisitChildren(nodes: seq<Node>)
      modifies this
      ensures classStack == old(classStack) && functionStack == old(functionStack)
      ensures records == old(records) + RecordsOfAll(file, nodes, old(Innermost()), old(functionStack))
      decreases nodes, 3
    {
      ghost var start, innermost, functions := records, Innermost(), functionStack;
      for i := 0 to |nodes|
        invariant classStack == old(classStack) && functionStack == functions
        invariant records == start + RecordsOfAll(file, nodes[..i], innermost, functions)
      {
        assert nodes[..i + 1][..i] == nodes[..i];
        Visit(nodes[i]);
        Associate(start, RecordsOfAll(file, nodes[..i], innermost, functions),
                  RecordsOf(file, nodes[i], innermost, functions));
      }
      assert nodes[..|nodes|] == nodes;
    }
  }
}
