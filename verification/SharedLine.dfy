/**
 Two functions on one line of the line search: a lone carriage return ends the first, and the second has a comment that
 is rewritten.
 */
module SharedLine {
  import opened Options
  import opened SyntaxTree
  import opened CommentText
  import opened Splice
  import opened SharedStarts
  import opened JsDocVisitor
  import opened JsDocEdits
  import opened CommentPlaces
  import opened RewrittenFile
  import opened DocumentedFile

  const FUNCTION_A := "function a(){}\r"
  const POOR := "/** for downstream callers. */\n"
  const FRONT := FUNCTION_A + POOR
  const HEAD := "function b(){}"
  const SOURCE := FRONT + HEAD

  const A := Node(FunctionDeclaration(Some("a")), 0, 0, None, 14, [])
  const B := Node(FunctionDeclaration(Some("b")), 14, 46, Some(Span(15, 45)), 60, [])
  const ROOT := Node(OtherNode, 0, 0, None, 60, [A, B])

  function FileWith(setting: Setting): File {
    FileIn(SOURCE, setting)
  }

  function CommentA(setting: Setting): string {
    RenderComment("", "\n", setting.describe(A, "a"))
  }

  function CommentB(setting: Setting): string {
    RenderComment("", "\n", setting.describe(B, "b"))
  }

  lemma FunctionAShape()
    ensures |FUNCTION_A| == 15 && FUNCTION_A[0] == 'f' && FUNCTION_A[14] == '\r' && '\n' !in FUNCTION_A
  {
  }

  lemma PoorShape()
    ensures |POOR| == 31 && POOR[0] == '/' && POOR[1] == '*' && POOR[28] == '*' && POOR[29] == '/' && POOR[30] == '\n'
    ensures '\n' !in POOR[..30]
  {
  }

  lemma FrontShape()
    ensures |FRONT| == 46 && FRONT[0] == 'f' && FRONT[14] == '\r' && FRONT[15] == '/' && FRONT[16] == '*'
    ensures FRONT[43] == '*' && FRONT[44] == '/' && FRONT[45] == '\n'
    ensures forall k :: 0 <= k < 45 ==> FRONT[k] != '\n'
  {
    FunctionAShape();
    PoorShape();
    forall k | 15 <= k < 45 ensures FRONT[k] == POOR[..30][k - 15] {
    }
  }

  lemma FrontIsFound()
    ensures Includes(FRONT, MARKER)
  {
    FunctionAShape();
    PoorShape();
    assert FRONT[19..] == POOR[4..];
    assert MARKER <= POOR[4..];
  }

  lemma HeadShape()
    ensures |HEAD| == 14 && HEAD[0] == 'f'
  {
  }

  lemma LineStarts()
    ensures IsInk(SOURCE, 0) && IsInk(SOURCE, 15) && IsInk(SOURCE, 46)
    ensures ReadLineStartIndex(SOURCE, 0) == 0 && ReadLineStartIndex(SOURCE, 15) == 0
    ensures ReadLineStartIndex(SOURCE, 46) == 46
  {
    FrontShape();
    HeadShape();
    LineStartIs(SOURCE, 0, 0);
    LineStartIs(SOURCE, 15, 0);
    LineStartIs(SOURCE, 46, 46);
  }

  lemma PartsArePlaced()
    ensures Placed(SOURCE, A, 0) && Placed(SOURCE, B, 14)
  {
    LineStarts();
    FrontShape();
    HeadShape();
    assert IsBreak(SOURCE[14]);
  }

  lemma RootIsPlaced(setting: Setting)
    ensures WellPlaced(FileWith(setting), ROOT)
  {
    PartsArePlaced();
    assert AllPlaced(SOURCE, [], 0) && EndOf([], 0) == 0;
    assert AllPlaced(SOURCE, [A], 0) by {
      assert [A][..|[A]| - 1] == [] && [A][|[A]| - 1] == A;
    }
    assert [A, B][..1] == [A] && |SOURCE| == 60 by {
      FrontShape();
      HeadShape();
    }
  }

  lemma TargetsAre(setting: Setting)
    ensures Targets(FileWith(setting), ROOT) == [Target(A, None), Target(B, None)]
  {
    var file := FileWith(setting);
    assert [A, B][..1] == [A] && [A][..0] == [];
    assert TargetsOfAll(file, [], None) == [];
    assert TargetsOf(file, A, None) == [Target(A, None)] && TargetsOf(file, B, None) == [Target(B, None)];
    assert TargetsOfAll(file, [A], None) == [Target(A, None)];
    assert TargetsOfAll(file, [A, B], None) == [Target(A, None), Target(B, None)];
  }

  lemma IndentsAre()
    ensures IndentAt(SOURCE, 0) == "" && IndentAt(SOURCE, 46) == ""
  {
    FrontShape();
    HeadShape();
  }

  lemma PoorIsFound(setting: Setting)
    requires FindsMarker(setting.isLowQuality)
    ensures setting.isLowQuality(Slice(SOURCE, 0, 46))
  {
    FrontShape();
    FrontIsFound();
    assert Slice(SOURCE, 0, 46) == FRONT;
  }

  lemma CommentsAre(setting: Setting)
    ensures Comment(FileWith(setting), Target(A, None)) == CommentA(setting)
    ensures Comment(FileWith(setting), Target(B, None)) == CommentB(setting)
  {
    LineStarts();
    IndentsAre();
    assert NormalizeFunctionName(FileWith(setting), Target(A, None)) == "a";
    assert NormalizeFunctionName(FileWith(setting), Target(B, None)) == "b";
  }

  lemma OwnEditsAre(setting: Setting)
    requires FindsMarker(setting.isLowQuality)
    ensures OwnEdits(FileWith(setting), Target(A, None)) == [Edit(0, 0, CommentA(setting))]
    ensures OwnEdits(FileWith(setting), Target(B, None)) == [Edit(0, 46, CommentB(setting))]
  {
    LineStarts();
    CommentsAre(setting);
    PoorIsFound(setting);
    assert EditStart(FileWith(setting), B) == 0 && EditEnd(FileWith(setting), B) == 46;
    assert NeedsRewrite(FileWith(setting))(Target(B, None));
  }

  lemma EditsAre(setting: Setting)
    requires FindsMarker(setting.isLowQuality)
    ensures Edits(FileWith(setting), ROOT) == [Edit(0, 0, CommentA(setting)), Edit(0, 46, CommentB(setting))]
  {
    var file := FileWith(setting);
    var first, second := [Target(A, None)], [Target(B, None)];
    TargetsAre(setting);
    OwnEditsAre(setting);
    EmitOne(file, first[0]);
    EmitOne(file, second[0]);
    EmitAllConcat(file, first, second);
    assert first + second == [Target(A, None), Target(B, None)];
  }

  /** The range of the replacement is cut off the inserted comment, which is longer. */
  lemma LoopGives(front: string, head: string, a: string, b: string)
    requires front != "" && |a| >= |front|
    ensures ApplyInOrder(front + head, SortDescending([Edit(0, 0, a), Edit(0, |front|, b)]))
         == b + a[|front|..] + front + head
  {
    assert "" + (front + head) == front + head;
    InsertionThenReplacement("", front, head, Edit(0, 0, a), Edit(0, |front|, b));
    CutTail(front + head, a, |front|);
    Flatten(b, a[|front|..], front, head);
  }

  lemma CutTail(tail: string, a: string, n: nat)
    requires n <= |a|
    ensures (a + tail)[n..] == a[n..] + tail
  {
  }

  lemma Flatten(a: string, b: string, c: string, d: string)
    ensures "" + (a + (b + (c + d))) == a + b + c + d
  {
  }

  /** The closing line of a comment is short, and the line of the range is not. */
  lemma RangeIsNoComment(a: string, b: string, above: string)
    requires |a| >= 46 && b == above + "" + " */" + "\n" && above != "" && above[|above| - 1] == '\n'
    ensures !Unharmed(FRONT, a, b)
  {
    FrontShape();
    var loop, proper := b + (a + FRONT)[46..], a + b;
    assert (a + FRONT)[46..] == a[46..] + FRONT;
    assert loop[|loop| - 5] == FRONT[41];
    assert proper[|proper| - 5] == b[|b| - 5] == '\n';
  }

  lemma SecondHarms(setting: Setting, edits: seq<Edit>)
    requires edits == [Edit(0, 0, CommentA(setting)), Edit(0, 46, CommentB(setting))]
    ensures !HarmlessAt(SOURCE, edits, 1)
  {
    FrontShape();
    CommentLength("", "\n", setting.describe(A, "a"));
    RenderedParts("", "\n", setting.describe(B, "b"));
    var above := Terminated(BodyLines("", setting.describe(B, "b")), "\n");
    assert CommentB(setting) == above + "" + " */" + "\n";
    RangeIsNoComment(CommentA(setting), CommentB(setting), above);
    assert RunStart(edits, 1) == RunStart(edits, 0) == 0;
    assert edits[0..1] == [edits[0]];
    StackedOne(edits[0]);
    assert SOURCE[0..46] == FRONT;
  }

  /** The range of the second edit covers the first function's token. */
  lemma TokenIsCovered(setting: Setting)
    requires FindsMarker(setting.isLowQuality)
    ensures !SparesTargets(FileWith(setting), Targets(FileWith(setting), ROOT))
  {
    var file := FileWith(setting);
    TargetsAre(setting);
    EditsAre(setting);
    assert Target(A, None) in Targets(file, ROOT) && Edits(file, ROOT)[1] in Edits(file, ROOT);
    assert !Outside(Edits(file, ROOT), 0);
  }

  /**
   The loop does not put both comments in place: a replacement comes after an insertion with its start, and does harm.
   */
  lemma LoopIsWrong(setting: Setting)
    requires FindsMarker(setting.isLowQuality)
    ensures !ReplacementsLead(Edits(FileWith(setting), ROOT))
    ensures !LoopSubstitutes(SOURCE, Edits(FileWith(setting), ROOT))
  {
    var edits := Edits(FileWith(setting), ROOT);
    EditsAre(setting);
    RootIsPlaced(setting);
    EditsAreChain(FileWith(setting), ROOT);
    SecondHarms(setting, edits);
    HarmSpoils(SOURCE, edits, 1);
    assert edits[0].start == edits[1].start && !IsInsertion(edits[1]);
  }

  /** The first function's new comment loses its head, and the old comment of the second is still there. */
  method RewriteSharedLine(setting: Setting) returns (updated: string, insertions: nat, replacements: nat)
    requires FindsMarker(setting.isLowQuality)
    ensures WellPlaced(FileWith(setting), ROOT)
    ensures |CommentA(setting)| >= 46
    ensures updated == CommentB(setting) + CommentA(setting)[46..] + FRONT + HEAD
  {
    EditsAre(setting);
    RootIsPlaced(setting);
    CommentLength("", "\n", setting.describe(A, "a"));
    FrontShape();
    LoopGives(FRONT, HEAD, CommentA(setting), CommentB(setting));
    updated, insertions, replacements := ApplyFile(FileWith(setting), ROOT);
  }
}
