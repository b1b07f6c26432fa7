/** The parts of a TypeScript syntax tree that the two documentation scripts look at. */
module SyntaxTree {
  import opened Options

  datatype Initializer = NoFunction | ArrowFunction | FunctionExpression

  /** A name is absent where the source declares none. */
  datatype Kind =
    | ClassDeclaration(className: Option<string>)
    | FunctionDeclaration(functionName: Option<string>)
    | MethodDeclaration(methodName: Option<string>)
    | ConstructorDeclaration
    | GetAccessor(getterName: Option<string>)
    | SetAccessor(setterName: Option<string>)
    | VariableDeclaration(variableName: Option<string>, initializer: Initializer)
    | Identifier(text: string)
    | OtherNode

  /** A stretch of the text. */
  datatype Span = Span(start: nat, end: nat)

  /**
   `pos` is where the token before a node ends, `start` where its own first token begins and `end` where its text ends;
   `doc` reaches from the first JSDoc comment attached to it to the end of the last.
   */
  datatype Node = Node(kind: Kind, pos: nat, start: nat, doc: Option<Span>, end: nat, children: seq<Node>)
}
