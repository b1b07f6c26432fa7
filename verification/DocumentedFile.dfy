/** A file rewritten with the comments that `buildCommentText` makes. */
module DocumentedFile {
  import opened SyntaxTree
  import opened CommentText
  import opened Splice
  import opened JsDocVisitor
  import opened JsDocEdits
  import opened CommentPlaces

  /** The file whose comments are the rendered descriptions. */
  function FileOf(source: string, newline: string, lineOf: nat -> nat, describe: (Node, string) -> Description,
                  isLowQuality: string -> bool): File {
    File(source, lineOf, (node, name, indent) => RenderComment(indent, newline, describe(node, name)), isLowQuality)
  }

  lemma {:induction false} IndentIsBlank(s: string, from: nat)
    ensures from <= |s| ==> from + IndentLength(s, from) <= |s|
    ensures IsIndent(IndentAt(s, from))
    decreases |s| - from
  {
    if from < |s| && (s[from] == ' ' || s[from] == '\t') {
      IndentIsBlank(s, from + 1);
      assert IndentAt(s, from) == [s[from]] + IndentAt(s, from + 1);
    }
  }

  ghost predicate ClosesOnce(text: string, newline: string) {
    && |text| >= |newline| + 2
    && text[|text| - |newline|..] == newline
    && forall i :: ClosesAt(text, i) <==> i == |text| - |newline| - 2
  }

  lemma CommentClosesOnce(source: string, newline: string, lineOf: nat -> nat, describe: (Node, string) -> Description,
                          isLowQuality: string -> bool, t: Target)
    requires IsFunctionTarget(t.node) && IsNewline(newline)
    ensures ClosesOnce(Comment(FileOf(source, newline, lineOf, describe, isLowQuality), t), newline)
  {
    var file := FileOf(source, newline, lineOf, describe, isLowQuality);
    IndentIsBlank(source, EditEnd(file, t.node));
    ClosesOnceAtTheEnd(IndentAt(source, EditEnd(file, t.node)), newline,
                       describe(t.node, NormalizeFunctionName(file, t)));
  }

  /** Every text the walk puts into the file is one comment: it closes once, at its end. */
  lemma {:induction false} EveryEditClosesOnce(source: string, newline: string, lineOf: nat -> nat,
                                               describe: (Node, string) -> Description,
                                               isLowQuality: string -> bool, root: Node, k: nat)
    requires IsNewline(newline) && k < |Edits(FileOf(source, newline, lineOf, describe, isLowQuality), root)|
    ensures ClosesOnce(Edits(FileOf(source, newline, lineOf, describe, isLowQuality), root)[k].text, newline)
  {
    var file := FileOf(source, newline, lineOf, describe, isLowQuality);
    var ts := Targets(file, root);
    var i := EditOrigin(file, ts, k);
    assert OwnEdits(file, ts[i])[0].text == Comment(file, ts[i]);
    CommentClosesOnce(source, newline, lineOf, describe, isLowQuality, ts[i]);
  }

  lemma {:induction false} DocumentsEndLines(source: string, newline: string, lineOf: nat -> nat,
                                             describe: (Node, string) -> Description,
                                             isLowQuality: string -> bool, root: Node)
    requires IsNewline(newline)
    ensures CommentsEndLines(FileOf(source, newline, lineOf, describe, isLowQuality), root)
  {
    var file := FileOf(source, newline, lineOf, describe, isLowQuality);
    forall t | t in Targets(file, root) ensures EndsInLineFeed(Comment(file, t)) {
      CommentClosesOnce(source, newline, lineOf, describe, isLowQuality, t);
      LastOfClosed(Comment(file, t), newline);
    }
  }

  lemma LastOfClosed(text: string, newline: string)
    requires ClosesOnce(text, newline) && IsNewline(newline)
    ensures EndsInLineFeed(text)
  {
    assert text[|text| - 1] == text[|text| - |newline|..][|newline| - 1];
  }

  /**
   End to end: where no comment swallows a token, every new comment stands right before its function exactly where every
   function that gets one begins its line.
   */
  lemma DocumentsAttach(source: string, newline: string, lineOf: nat -> nat, describe: (Node, string) -> Description,
                        isLowQuality: string -> bool, root: Node)
    requires IsNewline(newline)
    ensures var file := FileOf(source, newline, lineOf, describe, isLowQuality);
            WellPlaced(file, root) && NoneSwallows(file, Targets(file, root)) ==>
              (AllAttached(file, root, Updated(file, root)) <==> EditedBeginLines(file, root))
  {
    var file := FileOf(source, newline, lineOf, describe, isLowQuality);
    if WellPlaced(file, root) && NoneSwallows(file, Targets(file, root)) {
      DocumentsEndLines(source, newline, lineOf, describe, isLowQuality, root);
      CommentsAttach(file, root);
    }
  }

  // ----- A judgement of comments

  /** One of the phrases that make a comment poor. */
  const MARKER := "for downstream callers."

  ghost predicate Includes(s: string, part: string) {
    exists i :: 0 <= i <= |s| && part <= s[i..]
  }

  /** Any judgement that finds a text with the phrase poor. */
  ghost predicate FindsMarker(isLowQuality: string -> bool) {
    forall text :: Includes(text, MARKER) ==> isLowQuality(text)
  }

  /** What a file with plain line feeds is rewritten with. */
  datatype Setting = Setting(lineOf: nat -> nat, describe: (Node, string) -> Description, isLowQuality: string -> bool)

  function FileIn(source: string, setting: Setting): File {
    FileOf(source, "\n", setting.lineOf, setting.describe, setting.isLowQuality)
  }
}
