/**
 The generated JSDoc block.  A multi-line comment ends at its first "*" followed by "/" (section 12.4 of ECMA-262), so
 whatever names and descriptions are spliced in, only the closing line may hold that pair.
 */
module CommentText {
  import opened Options
  import opened Seqs
  import opened Text
  import opened Runs

  datatype ImportBinding = ImportBinding(localName: string, importedName: string, source: string)

  datatype Parameter = Parameter(name: string, description: string)

  datatype Description = Description(
    whatItDoes: string,
    whyItExists: string,
    collaborators: seq<ImportBinding>,
    parameters: seq<Parameter>,
    returnDescription: Option<string>)

  /** `value.replace(/\*\//g, "*\\/")` */
  function EscapeClosers(s: string): string {
    if s == "" then ""
    else if |s| >= 2 && s[0] == '*' && s[1] == '/' then "*\\/" + EscapeClosers(s[2..])
    else [s[0]] + EscapeClosers(s[1..])
  }

  /** `s.replace(/\s+/g, " ")` */
  function CollapseSpaces(s: string): string {
    CollapseRuns(IsSpace, ' ', s)
  }

  function Sanitize(s: string): string {
    Trim(CollapseSpaces(EscapeClosers(s)))
  }

  function CollaboratorLine(indent: string, c: ImportBinding): string {
    indent + " * - Uses `" + Sanitize(c.localName) + "` (import `" + Sanitize(c.importedName) + "`) from `"
    + Sanitize(c.source) + "`."
  }

  function ParameterLine(indent: string, p: Parameter): string {
    indent + " * @param " + Sanitize(p.name) + " - " + Sanitize(p.description)
  }

  function CollaboratorLines(indent: string, cs: seq<ImportBinding>): seq<string> {
    seq(|cs|, i requires 0 <= i < |cs| => CollaboratorLine(indent, cs[i]))
  }

  function ParameterLines(indent: string, ps: seq<Parameter>): seq<string> {
    seq(|ps|, i requires 0 <= i < |ps| => ParameterLine(indent, ps[i]))
  }

  const MAX_COLLABORATORS := 6

  const LOCAL_ONLY := " * - Uses local " + "constants/helpers within this module."
  const AND_MORE := " * - Additional imported " + "collaborators are also used " + "in this function body."

  function HeadLines(indent: string, d: Description): seq<string> {
    [indent + "/**",
     indent + " * " + Sanitize(d.whatItDoes),
     indent + " *",
     indent + " * **Why it exists:**",
     indent + " * " + Sanitize(d.whyItExists),
     indent + " *",
     indent + " * **What it talks to:**"]
  }

  function CollaboratorSection(indent: string, cs: seq<ImportBinding>): seq<string> {
    if cs == [] then [indent + LOCAL_ONLY]
    else if |cs| <= MAX_COLLABORATORS then CollaboratorLines(indent, cs)
    else CollaboratorLines(indent, cs[..MAX_COLLABORATORS])
         + [indent + AND_MORE]
  }

  function ParameterSection(indent: string, ps: seq<Parameter>): seq<string> {
    if ps == [] then [] else [indent + " *"] + ParameterLines(indent, ps)
  }

  function ReturnSection(indent: string, returned: Option<string>): seq<string> {
    if returned.Some? && returned.value != "" then [indent + " * @returns " + Sanitize(returned.value)] else []
  }

  /** The lines above the closing one. */
  function BodyLines(indent: string, d: Description): seq<string> {
    HeadLines(indent, d) + CollaboratorSection(indent, d.collaborators) + ParameterSection(indent, d.parameters)
    + ReturnSection(indent, d.returnDescription)
  }

  function RenderComment(indent: string, newline: string, d: Description): string {
    Join(BodyLines(indent, d) + [indent + " */", ""], newline)
  }

  lemma OneMoreCollaborator(indent: string, cs: seq<ImportBinding>, i: nat)
    requires i < |cs|
    ensures CollaboratorLines(indent, cs[..i + 1])
         == CollaboratorLines(indent, cs[..i]) + [CollaboratorLine(indent, cs[i])]
  {
  }

  lemma OneMoreParameter(indent: string, ps: seq<Parameter>, i: nat)
    requires i < |ps|
    ensures ParameterLines(indent, ps[..i + 1]) == ParameterLines(indent, ps[..i]) + [ParameterLine(indent, ps[i])]
  {
  }

  method PushCollaborators(indent: string, cs: seq<ImportBinding>, above: seq<string>) returns (lines: seq<string>)
    ensures lines == above + CollaboratorSection(indent, cs)
  {
    if cs == [] {
      return above + [indent + LOCAL_ONLY];
    }
    lines := above;
    var shown := if |cs| <= MAX_COLLABORATORS then cs else cs[..MAX_COLLABORATORS];
    for i := 0 to |shown|
      invariant lines == above + CollaboratorLines(indent, shown[..i])
    {
      OneMoreCollaborator(indent, shown, i);
      lines := lines + [CollaboratorLine(indent, shown[i])];
    }
    assert shown[..|shown|] == shown;
    if |cs| > MAX_COLLABORATORS {
      lines := lines + [indent + AND_MORE];
    }
  }

  method PushParameters(indent: string, ps: seq<Parameter>, above: seq<string>) returns (lines: seq<string>)
    ensures lines == above + ParameterSection(indent, ps)
  {
    if ps == [] {
      assert ParameterSection(indent, ps) == [];
      return above;
    }
    lines := above + [indent + " *"];
    ghost var head := lines;
    for i := 0 to |ps|
      invariant lines == head + ParameterLines(indent, ps[..i])
    {
      OneMoreParameter(indent, ps, i);
      lines := lines + [ParameterLine(indent, ps[i])];
    }
    assert ps[..|ps|] == ps;
    Associate(above, [indent + " *"], ParameterLines(indent, ps));
  }

  method PushHead(indent: string, d: Description) returns (lines: seq<string>)
    ensures lines == HeadLines(indent, d)
  {
    lines := [indent + "/**"];
    lines := lines + [indent + " * " + Sanitize(d.whatItDoes)];
    lines := lines + [indent + " *"];
    lines := lines + [indent + " * **Why it exists:**"];
    lines := lines + [indent + " * " + Sanitize(d.whyItExists)];
    lines := lines + [indent + " *"];
    lines := lines + [indent + " * **What it talks to:**"];
  }

  method BuildCommentText(indent: string, newline: string, d: Description) returns (text: string)
    ensures text == RenderComment(indent, newline, d)
  {
    var lines := PushHead(indent, d);
    lines := PushCollaborators(indent, d.collaborators, lines);
    lines := PushParameters(indent, d.parameters, lines);
    if d.returnDescription.Some? && d.returnDescription.value != "" {
      lines := lines + [indent + " * @returns " + Sanitize(d.returnDescription.value)];
    }
    lines := lines + [indent + " */"];
    lines := lines + [""];
    assert lines == BodyLines(indent, d) + [indent + " */", ""];
    text := Join(lines, newline);
  }

  // ----- No piece of the comment closes it

  ghost predicate ClosesAt(s: string, i: int) {
    0 <= i && i + 1 < |s| && s[i] == '*' && s[i + 1] == '/'
  }

  ghost predicate NeverCloses(s: string) {
    forall i :: !ClosesAt(s, i)
  }

  /** Two texts that do not close, and whose seam does not. */
  lemma SeamSafe(a: string, b: string)
    requires NeverCloses(a) && NeverCloses(b)
    requires !(a != "" && b != "" && a[|a| - 1] == '*' && b[0] == '/')
    ensures NeverCloses(a + b)
  {
    forall i ensures !ClosesAt(a + b, i) {
      assert i + 1 < |a| ==> !ClosesAt(a, i);
      assert !ClosesAt(b, i - |a|);
    }
  }

  lemma {:induction false} EscapeNeverCloses(s: string)
    ensures NeverCloses(EscapeClosers(s))
    ensures s != "" ==> EscapeClosers(s) != "" && EscapeClosers(s)[0] == s[0]
  {
    if s == "" {
    } else if |s| >= 2 && s[0] == '*' && s[1] == '/' {
      EscapeNeverCloses(s[2..]);
      SeamSafe("*\\/", EscapeClosers(s[2..]));
    } else {
      EscapeNeverCloses(s[1..]);
      SeamSafe([s[0]], EscapeClosers(s[1..]));
    }
  }

  lemma {:induction false} CollapseNeverCloses(s: string)
    requires NeverCloses(s)
    ensures NeverCloses(CollapseSpaces(s))
    ensures s != "" ==> CollapseSpaces(s) != "" && CollapseSpaces(s)[0] == (if IsSpace(s[0]) then ' ' else s[0])
  {
    if s != "" {
      var rest := s[1..];
      forall i ensures !ClosesAt(rest, i) {
        assert !ClosesAt(s, i + 1);
      }
      CollapseNeverCloses(rest);
      assert !ClosesAt(s, 0);
      SeamSafe(if IsSpace(s[0]) then " " else [s[0]], CollapseSpaces(rest));
    }
  }

  lemma {:induction false} CollapseLeavesBlanks(s: string)
    ensures forall c :: c in CollapseSpaces(s) && IsSpace(c) ==> c == ' '
  {
    if s != "" {
      CollapseLeavesBlanks(s[1..]);
    }
  }

  /** Sanitized text cannot close the comment, and stays on its line. */
  lemma SanitizedIsHarmless(s: string)
    ensures NeverCloses(Sanitize(s)) && IsTrimmed(Sanitize(s))
    ensures forall c :: c in Sanitize(s) && IsSpace(c) ==> c == ' '
  {
    var t := CollapseSpaces(EscapeClosers(s));
    EscapeNeverCloses(s);
    CollapseNeverCloses(EscapeClosers(s));
    CollapseLeavesBlanks(EscapeClosers(s));
    var from, to := TrimSlice(t);
    forall i ensures !ClosesAt(t[from..to], i) {
      assert !ClosesAt(t, from + i);
    }
    forall c | c in t[from..to] ensures c in t {}
  }

  ghost predicate IsIndent(s: string) {
    forall c :: c in s ==> c == ' ' || c == '\t'
  }

  lemma SlashFree(s: string)
    requires '/' !in s
    ensures NeverCloses(s)
  {
  }

  lemma IndentedLine(indent: string, rest: string)
    requires IsIndent(indent) && '/' !in rest
    ensures NeverCloses(indent + rest)
  {
    SlashFree(indent + rest);
  }

  /** `lead` followed by sanitized text. */
  lemma Labelled(lead: string, s: string)
    requires NeverCloses(lead) && lead != "" && lead[|lead| - 1] != '*'
    ensures NeverCloses(lead + Sanitize(s))
  {
    SanitizedIsHarmless(s);
    SeamSafe(lead, Sanitize(s));
  }

  /** A further lead, and sanitized text after what stands already. */
  lemma ThenLabelled(line: string, lead: string, s: string)
    requires NeverCloses(line) && '/' !in lead && lead != "" && lead[|lead| - 1] != '*'
    ensures NeverCloses(line + lead + Sanitize(s))
  {
    SlashFree(lead);
    SeamSafe(line, lead);
    Labelled(line + lead, s);
  }

  ghost predicate AllSafe(lines: seq<string>) {
    forall i :: 0 <= i < |lines| ==> NeverCloses(lines[i])
  }

  lemma CollaboratorLineSafe(indent: string, c: ImportBinding)
    requires IsIndent(indent)
    ensures NeverCloses(CollaboratorLine(indent, c))
  {
    IndentedLine(indent, " * - Uses `");
    Labelled(indent + " * - Uses `", c.localName);
    ThenLabelled(indent + " * - Uses `" + Sanitize(c.localName), "` (import `", c.importedName);
    var named := indent + " * - Uses `" + Sanitize(c.localName) + "` (import `" + Sanitize(c.importedName);
    ThenLabelled(named, "`) from `", c.source);
    SeamSafe(named + "`) from `" + Sanitize(c.source), "`.");
  }

  lemma ParameterLineSafe(indent: string, p: Parameter)
    requires IsIndent(indent)
    ensures NeverCloses(ParameterLine(indent, p))
  {
    IndentedLine(indent, " * @param ");
    Labelled(indent + " * @param ", p.name);
    ThenLabelled(indent + " * @param " + Sanitize(p.name), " - ", p.description);
  }

  lemma OpeningLineSafe(indent: string)
    requires IsIndent(indent)
    ensures NeverCloses(indent + "/**")
  {
    SlashFree(indent);
    assert indent != "" ==> indent[|indent| - 1] in indent;
    SeamSafe(indent, "/**");
  }

  lemma HeadLinesSafe(indent: string, d: Description)
    requires IsIndent(indent)
    ensures AllSafe(HeadLines(indent, d))
  {
    OpeningLineSafe(indent);
    IndentedLine(indent, " * ");
    Labelled(indent + " * ", d.whatItDoes);
    IndentedLine(indent, " *");
    IndentedLine(indent, " * **Why it exists:**");
    Labelled(indent + " * ", d.whyItExists);
    IndentedLine(indent, " * **What it talks to:**");
  }

  lemma AndMoreSafe(indent: string)
    requires IsIndent(indent)
    ensures NeverCloses(indent + AND_MORE)
  {
    SlashFree(" * - Additional imported ");
    SlashFree("collaborators are also used ");
    SlashFree("in this function body.");
    SeamSafe(" * - Additional imported ", "collaborators are also used ");
    SeamSafe(" * - Additional imported " + "collaborators are also used ", "in this function body.");
    StarFree(indent);
    SeamSafe(indent, AND_MORE);
  }

  lemma LocalOnlySafe(indent: string)
    requires IsIndent(indent)
    ensures NeverCloses(indent + LOCAL_ONLY)
  {
    SlashFree(" * - Uses local ");
    StarFree("constants/helpers within this module.");
    SeamSafe(" * - Uses local ", "constants/helpers within this module.");
    StarFree(indent);
    SeamSafe(indent, LOCAL_ONLY);
  }

  lemma {:induction false} CollaboratorSectionSafe(indent: string, cs: seq<ImportBinding>)
    requires IsIndent(indent)
    ensures AllSafe(CollaboratorSection(indent, cs))
  {
    LocalOnlySafe(indent);
    AndMoreSafe(indent);
    forall c | c in cs ensures NeverCloses(CollaboratorLine(indent, c)) {
      CollaboratorLineSafe(indent, c);
    }
  }

  lemma StarFree(s: string)
    requires '*' !in s
    ensures NeverCloses(s)
  {
  }

  lemma ParameterSectionSafe(indent: string, ps: seq<Parameter>)
    requires IsIndent(indent)
    ensures AllSafe(ParameterSection(indent, ps))
  {
    IndentedLine(indent, " *");
    forall p | p in ps ensures NeverCloses(ParameterLine(indent, p)) {
      ParameterLineSafe(indent, p);
    }
  }

  lemma ReturnSectionSafe(indent: string, returned: Option<string>)
    requires IsIndent(indent)
    ensures AllSafe(ReturnSection(indent, returned))
  {
    IndentedLine(indent, " * @returns ");
    if returned.Some? {
      Labelled(indent + " * @returns ", returned.value);
    }
  }

  lemma {:induction false} BodyLinesSafe(indent: string, d: Description)
    requires IsIndent(indent)
    ensures AllSafe(BodyLines(indent, d))
  {
    HeadLinesSafe(indent, d);
    CollaboratorSectionSafe(indent, d.collaborators);
    ParameterSectionSafe(indent, d.parameters);
    ReturnSectionSafe(indent, d.returnDescription);
    AllSafeConcat(HeadLines(indent, d), CollaboratorSection(indent, d.collaborators));
    AllSafeConcat(HeadLines(indent, d) + CollaboratorSection(indent, d.collaborators),
                  ParameterSection(indent, d.parameters));
    AllSafeConcat(HeadLines(indent, d) + CollaboratorSection(indent, d.collaborators)
                  + ParameterSection(indent, d.parameters),
                  ReturnSection(indent, d.returnDescription));
  }

  lemma AllSafeConcat(a: seq<string>, b: seq<string>)
    requires AllSafe(a) && AllSafe(b)
    ensures AllSafe(a + b)
  {
  }

  ghost predicate IsNewline(s: string) { s == "\n" || s == "\r\n" }

  /** The lines, each followed by the newline. */
  function Terminated(lines: seq<string>, newline: string): string {
    if lines == [] then "" else Terminated(lines[..|lines| - 1], newline) + lines[|lines| - 1] + newline
  }

  lemma {:induction false} JoinTerminates(lines: seq<string>, newline: string)
    ensures Join(lines + [""], newline) == Terminated(lines, newline)
  {
    if lines != [] {
      var front, last := lines[..|lines| - 1], lines[|lines| - 1];
      JoinTerminates(front, newline);
      assert lines + [""] == front + [last] + [""];
      JoinMore(front, last, newline);
    }
  }

  lemma {:induction false} JoinMore(front: seq<string>, last: string, newline: string)
    ensures Join(front + [last] + [""], newline) == Join(front + [""], newline) + last + newline
  {
    if front == [] {
      assert ([] + [last] + [""])[1..] == [""];
    } else {
      assert (front + [last] + [""])[1..] == front[1..] + [last] + [""];
      assert (front + [""])[1..] == front[1..] + [""];
      JoinMore(front[1..], last, newline);
    }
  }

  lemma {:induction false} TerminatedSafe(lines: seq<string>, newline: string)
    requires AllSafe(lines) && IsNewline(newline)
    ensures NeverCloses(Terminated(lines, newline))
    ensures lines != [] ==> |Terminated(lines, newline)| > 0
                            && Terminated(lines, newline)[|Terminated(lines, newline)| - 1] == '\n'
  {
    if lines != [] {
      var above := Terminated(lines[..|lines| - 1], newline);
      TerminatedSafe(lines[..|lines| - 1], newline);
      SeamSafe(above, lines[|lines| - 1]);
      SeamSafe(above + lines[|lines| - 1], newline);
    }
  }

  /** The closing line stands below the others. */
  lemma {:induction false} RenderedParts(indent: string, newline: string, d: Description)
    requires IsIndent(indent) && IsNewline(newline)
    ensures RenderComment(indent, newline, d) == Terminated(BodyLines(indent, d), newline) + (indent + " */") + newline
    ensures var above := Terminated(BodyLines(indent, d), newline);
            NeverCloses(above) && above != "" && above[|above| - 1] == '\n'
  {
    var body, closing := BodyLines(indent, d), indent + " */";
    BodyLinesSafe(indent, d);
    TerminatedSafe(body, newline);
    JoinTerminates(body + [closing], newline);
    assert body + [closing] + [""] == body + [closing, ""];
    assert (body + [closing])[..|body|] == body;
  }

  /**
   Whatever the names, sources and descriptions are, the comment holds the closing pair once, in its last line, and
   ends with a newline.
   */
  lemma ClosesOnceAtTheEnd(indent: string, newline: string, d: Description)
    requires IsIndent(indent) && IsNewline(newline)
    ensures var text := RenderComment(indent, newline, d);
            && |text| >= |newline| + 2
            && text[|text| - |newline|..] == newline
            && forall i :: ClosesAt(text, i) <==> i == |text| - |newline| - 2
  {
    RenderedParts(indent, newline, d);
    ClosingLine(Terminated(BodyLines(indent, d), newline), indent, newline);
  }

  lemma {:induction false} TerminatedGrows(lines: seq<string>, newline: string, k: nat)
    requires k < |lines|
    ensures |Terminated(lines, newline)| >= |Terminated(lines[..k], newline)| + |lines[k]| + |newline|
  {
    if k < |lines| - 1 {
      assert lines[..|lines| - 1][..k] == lines[..k];
      TerminatedGrows(lines[..|lines| - 1], newline, k);
    }
  }

  /** The two headings alone make a comment this long. */
  lemma {:induction false} CommentLength(indent: string, newline: string, d: Description)
    requires IsIndent(indent) && IsNewline(newline)
    ensures |RenderComment(indent, newline, d)| >= 50
  {
    var body := BodyLines(indent, d);
    RenderedParts(indent, newline, d);
    assert body[3] == HeadLines(indent, d)[3] == indent + " * **Why it exists:**";
    assert body[6] == HeadLines(indent, d)[6] == indent + " * **What it talks to:**";
    TerminatedGrows(body, newline, 6);
    TerminatedGrows(body[..6], newline, 3);
  }

  lemma ClosingLine(above: string, indent: string, newline: string)
    requires NeverCloses(above) && above != "" && above[|above| - 1] == '\n' && IsIndent(indent) && IsNewline(newline)
    ensures var text := above + (indent + " */") + newline;
            && text[|text| - |newline|..] == newline
            && forall i :: ClosesAt(text, i) <==> i == |text| - |newline| - 2
  {
    var text := above + (indent + " */") + newline;
    var open := above + (indent + " *");
    IndentedLine(indent, " *");
    SeamSafe(above, indent + " *");
    assert text == open + ("/" + newline);
    assert NeverCloses("/" + newline);
    forall i ensures ClosesAt(text, i) <==> i == |open| - 1 {
      if 0 <= i && i + 1 < |open| {
        assert !ClosesAt(open, i);
      } else if i >= |open| {
        assert !ClosesAt("/" + newline, i - |open|);
      }
    }
  }
}
