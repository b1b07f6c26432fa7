/** Files of one function, on ordinary lines and without carriage returns, that come out wrong. */
module OneFunction {
  import opened Options
  import opened SyntaxTree
  import opened CommentText
  import opened Sorting
  import opened Splice
  import opened JsDocVisitor
  import opened JsDocEdits
  import opened CommentPlaces
  import opened RewrittenFile
  import opened DocumentedFile

  /** A function declaration from `start` to `end`, at the top of its file. */
  function Function(name: string, start: nat, doc: Option<Span>, end: nat): Node {
    Node(FunctionDeclaration(Some(name)), 0, start, doc, end, [])
  }

  function Root(b: Node): Node {
    Node(OtherNode, 0, b.start, None, b.end, [b])
  }

  lemma OneEdit(file: File, b: Node)
    requires IsFunctionTarget(b) && b.children == []
    ensures Targets(file, Root(b)) == [Target(b, None)]
    ensures Edits(file, Root(b)) == OwnEdits(file, Target(b, None))
  {
    assert [b][..0] == [];
    assert TargetsOfAll(file, [], None) == [];
    assert TargetsOf(file, b, None) == [Target(b, None)];
    assert TargetsOfAll(file, [b], None) == [Target(b, None)];
    EmitOne(file, Target(b, None));
  }

  lemma OneEditApplied(source: string, e: Edit)
    ensures ApplyInOrder(source, SortDescending([e])) == ApplyEdit(source, e)
  {
    SortOrdered(NoEarlier, [e]);
    assert [e][..0] == [];
    assert ApplyInOrder(source, []) == source;
  }

  lemma RootIsPlaced(source: string, b: Node)
    requires Placed(source, b, 0)
    ensures Placed(source, Root(b), 0)
  {
    assert [b][..0] == [] && [b][0] == b;
    assert AllPlaced(source, [], 0) && EndOf([], 0) == 0;
    assert AllPlaced(source, [b], 0);
  }

  /**
   The line of the function's token begins at `line`, with `indent`, and that of its comment at the very beginning.
   */
  ghost predicate LinesAre(source: string, b: Node, line: nat, indent: string) {
    && TargetPlaced(source, b) && line <= b.start < b.end == |source|
    && IsLineStart(source, line) && (forall k :: line <= k < b.start ==> source[k] != '\n')
    && (b.doc.Some? ==> b.doc.value.start == 0)
    && IndentAt(source, line) == indent
  }

  lemma LinesGive(source: string, setting: Setting, name: string, b: Node, line: nat, indent: string)
    requires b == Function(name, b.start, b.doc, b.end) && LinesAre(source, b, line, indent)
    ensures EditStart(FileIn(source, setting), b) == if b.doc.Some? then 0 else line
    ensures EditEnd(FileIn(source, setting), b) == line
    ensures Comment(FileIn(source, setting), Target(b, None)) == RenderComment(indent, "\n", setting.describe(b, name))
  {
    FirstIsInk(source, b);
    LineStartIs(source, b.start, line);
    if b.doc.Some? {
      LineStartIs(source, 0, 0);
    }
  }

  lemma OneFunctionIsEdited(source: string, setting: Setting, name: string, b: Node, line: nat, indent: string)
    requires b == Function(name, b.start, b.doc, b.end) && LinesAre(source, b, line, indent)
    requires b.doc.Some? ==> FindsMarker(setting.isLowQuality) && Includes(source[..line], MARKER)
    ensures Edits(FileIn(source, setting), Root(b))
         == [Edit(if b.doc.Some? then 0 else line, line, RenderComment(indent, "\n", setting.describe(b, name)))]
  {
    LinesGive(source, setting, name, b, line, indent);
    OneEdit(FileIn(source, setting), b);
    assert b.doc.Some? ==> Slice(source, 0, line) == source[..line];
  }

  /**
   The new comment stands in the place of all that was before the function's line, or is put in front of that line.
   */
  lemma OneFunctionRewritten(source: string, setting: Setting, name: string, b: Node, line: nat, indent: string)
    requires b == Function(name, b.start, b.doc, b.end) && LinesAre(source, b, line, indent)
    requires b.doc.Some? ==> FindsMarker(setting.isLowQuality) && Includes(source[..line], MARKER)
    ensures Updated(FileIn(source, setting), Root(b))
         == (if b.doc.Some? then "" else source[..line]) + RenderComment(indent, "\n", setting.describe(b, name))
            + source[line..]
  {
    OneFunctionIsEdited(source, setting, name, b, line, indent);
    OneEditApplied(source,
                   Edit(if b.doc.Some? then 0 else line, line, RenderComment(indent, "\n", setting.describe(b, name))));
    assert source[..0] == "";
  }

  lemma {:induction false} IndentLengthIs(s: string, from: nat, end: nat)
    requires from <= end < |s| && s[end] != ' ' && s[end] != '\t' && OnlyBlanks(s, from, end)
    ensures from + IndentLength(s, from) == end
    decreases |s| - from
  {
    if from < end {
      IndentLengthIs(s, from + 1, end);
    }
  }

  // ----- Files of two parts

  ghost predicate IsIndentOf(head: string, indent: string) {
    && |indent| < |head| && head[..|indent|] == indent && OnlyBlanks(head, 0, |indent|)
    && head[|indent|] != ' ' && head[|indent|] != '\t'
  }

  /** The lines before the function's; a comment begins with them. */
  ghost predicate IsFront(front: string) {
    |front| >= 2 && front[0] == '/' && front[1] == '*' && front[|front| - 1] == '\n' && '\r' !in front
  }

  /** The function's line. */
  ghost predicate IsHead(head: string, indent: string) {
    IsIndentOf(head, indent) && '\n' !in head && '\r' !in head
  }

  /** The comment ends at `end`, in `front` or in `head`. */
  ghost predicate ClosesIn(front: string, head: string, end: nat) {
    && 4 <= end
    && if end <= |front| then front[end - 2] == '*' && front[end - 1] == '/'
       else |front| + 2 <= end <= |front| + |head| && head[end - 2 - |front|] == '*' && head[end - 1 - |front|] == '/'
  }

  ghost predicate Fits(front: string, head: string, b: Node) {
    && b.pos == 0 && |front| <= b.start < b.end == |front| + |head| && IsInk(head, b.start - |front|)
    && (b.doc.Some? ==>
          b.doc.value.start == 0 && b.doc.value.end <= b.start && ClosesIn(front, head, b.doc.value.end))
  }

  lemma FitsIndent(front: string, head: string, indent: string)
    requires IsIndentOf(head, indent)
    ensures IndentAt(front + head, |front|) == indent
  {
    forall k | |front| <= k < |front| + |indent| ensures (front + head)[k] == ' ' || (front + head)[k] == '\t' {
      assert (front + head)[k] == head[k - |front|];
    }
    IndentLengthIs(front + head, |front|, |front| + |indent|);
    assert (front + head)[|front|..|front| + |indent|] == head[..|indent|];
  }

  lemma FitsLines(front: string, head: string, indent: string, b: Node)
    requires IsFront(front) && IsHead(head, indent) && Fits(front, head, b)
    ensures LinesAre(front + head, b, |front|, indent) && NoLoneReturn(front + head)
  {
    FitsIndent(front, head, indent);
    forall k | |front| <= k < |front + head| ensures (front + head)[k] == head[k - |front|] {
    }
  }

  lemma FitsParts(front: string, head: string, indent: string, name: string, b: Node, setting: Setting)
    requires b == Function(name, b.start, b.doc, b.end)
    requires IsFront(front) && IsHead(head, indent) && Fits(front, head, b)
    requires b.doc.Some? ==> FindsMarker(setting.isLowQuality) && Includes(front, MARKER)
    ensures WellPlaced(FileIn(front + head, setting), Root(b))
    ensures Updated(FileIn(front + head, setting), Root(b))
         == (if b.doc.Some? then "" else front) + RenderComment(indent, "\n", setting.describe(b, name)) + head
  {
    FitsLines(front, head, indent, b);
    assert (front + head)[..|front|] == front && (front + head)[|front|..] == head;
    RootIsPlaced(front + head, b);
    OneFunctionRewritten(front + head, setting, name, b, |front|, indent);
  }

  /** The new comment stands in the place of `front`, or is put between the two parts. */
  method RewriteParts(front: string, head: string, indent: string, name: string, b: Node, setting: Setting)
    returns (updated: string, insertions: nat, replacements: nat)
    requires b == Function(name, b.start, b.doc, b.end)
    requires IsFront(front) && IsHead(head, indent) && Fits(front, head, b)
    requires b.doc.Some? ==> FindsMarker(setting.isLowQuality) && Includes(front, MARKER)
    ensures WellPlaced(FileIn(front + head, setting), Root(b)) && NoLoneReturn(front + head)
    ensures b.doc.Some? ==> updated == RenderComment(indent, "\n", setting.describe(b, name)) + head
    ensures b.doc.None? ==> updated == front + RenderComment(indent, "\n", setting.describe(b, name)) + head
  {
    FitsLines(front, head, indent, b);
    FitsParts(front, head, indent, name, b, setting);
    updated, insertions, replacements := ApplyFile(FileIn(front + head, setting), Root(b));
    NoFront(RenderComment(indent, "\n", setting.describe(b, name)), head);
  }

  lemma NoFront(text: string, head: string)
    ensures "" + text + head == text + head
  {
  }

  // ----- A comment that ends on the line of its function

  const POOR_LINE := "/** for downstream callers.\n"
  const HEAD_B := " */ function b(){}"
  const CLOSED_LATE := Function("b", 32, Some(Span(0, 31)), 46)

  lemma PoorLineShape()
    ensures IsFront(POOR_LINE) && |POOR_LINE| == 28 && Includes(POOR_LINE, MARKER)
  {
    assert MARKER <= POOR_LINE[4..];
  }

  lemma HeadBShape()
    ensures IsHead(HEAD_B, " ") && |HEAD_B| == 18 && IsInk(HEAD_B, 4) && HEAD_B[1] == '*' && HEAD_B[2] == '/'
  {
  }

  /** The closing pair of the old comment stays behind the new comment, and closes nothing. */
  method RewriteClosedLate(setting: Setting) returns (updated: string, insertions: nat, replacements: nat)
    requires FindsMarker(setting.isLowQuality)
    ensures WellPlaced(FileIn(POOR_LINE + HEAD_B, setting), Root(CLOSED_LATE)) && NoLoneReturn(POOR_LINE + HEAD_B)
    ensures updated == RenderComment(" ", "\n", setting.describe(CLOSED_LATE, "b")) + HEAD_B
  {
    PoorLineShape();
    HeadBShape();
    updated, insertions, replacements := RewriteParts(POOR_LINE, HEAD_B, " ", "b", CLOSED_LATE, setting);
  }

  // ----- An ordinary comment that ends on the line of a function without a doc comment

  const OPEN_BLOCK := "/* n\n"
  const HEAD_F := " */ function f(){}"
  const UNDER_BLOCK := Function("f", 9, None, 23)

  lemma HeadFShape()
    ensures IsHead(HEAD_F, " ") && |HEAD_F| == 18 && IsInk(HEAD_F, 4)
  {
  }

  /** The new comment lands inside the block comment, and its closing pair ends it. */
  method InsertUnderBlock(setting: Setting) returns (updated: string, insertions: nat, replacements: nat)
    ensures WellPlaced(FileIn(OPEN_BLOCK + HEAD_F, setting), Root(UNDER_BLOCK)) && NoLoneReturn(OPEN_BLOCK + HEAD_F)
    ensures updated == OPEN_BLOCK + RenderComment(" ", "\n", setting.describe(UNDER_BLOCK, "f")) + HEAD_F
  {
    HeadFShape();
    updated, insertions, replacements := RewriteParts(OPEN_BLOCK, HEAD_F, " ", "f", UNDER_BLOCK, setting);
  }

  // ----- An ordinary comment between a doc comment and its function

  const POOR_AND_NOTE := "/** for downstream callers. */\n// note\n"
  const PLAIN_B := "function b(){}"
  const NOTED := Function("b", 39, Some(Span(0, 30)), 53)

  lemma PoorAndNoteShape()
    ensures IsFront(POOR_AND_NOTE) && |POOR_AND_NOTE| == 39 && POOR_AND_NOTE[28] == '*' && POOR_AND_NOTE[29] == '/'
  {
  }

  lemma PlainBShape()
    ensures IsHead(PLAIN_B, "") && |PLAIN_B| == 14 && IsInk(PLAIN_B, 0)
  {
  }

  lemma PoorAndNoteIsFound()
    ensures Includes(POOR_AND_NOTE, MARKER)
  {
    assert MARKER <= POOR_AND_NOTE[4..];
  }

  /** The ordinary comment goes with the old comment. */
  method RewriteNoted(setting: Setting) returns (updated: string, insertions: nat, replacements: nat)
    requires FindsMarker(setting.isLowQuality)
    ensures WellPlaced(FileIn(POOR_AND_NOTE + PLAIN_B, setting), Root(NOTED)) && NoLoneReturn(POOR_AND_NOTE + PLAIN_B)
    ensures updated == RenderComment("", "\n", setting.describe(NOTED, "b")) + PLAIN_B
  {
    PoorAndNoteShape();
    PoorAndNoteIsFound();
    PlainBShape();
    updated, insertions, replacements := RewriteParts(POOR_AND_NOTE, PLAIN_B, "", "b", NOTED, setting);
  }
}
