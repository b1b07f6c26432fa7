/** What a generated comment says: which lines it has, and how the texts it is given are written into them. */
module CommentMeaning {
  import opened Options
  import opened Seqs
  import opened Text
  import opened Runs
  import opened CommentText

  // ----- What sanitizing does to a text

  /** Every closing pair of the text, and nothing else, gets a backslash in the middle. */
  lemma {:induction false} EscapeMeaning(s: string) returns (pieces: seq<string>)
    ensures pieces != [] && AllSafe(pieces) && s == Join(pieces, "*/") && EscapeClosers(s) == Join(pieces, "*\\/")
  {
    if s == "" {
      pieces := [""];
    } else if |s| >= 2 && s[0] == '*' && s[1] == '/' {
      var rest := EscapeMeaning(s[2..]);
      pieces := [""] + rest;
      assert s == "*/" + s[2..] && pieces[1..] == rest;
    } else {
      var rest := EscapeMeaning(s[1..]);
      pieces := [[s[0]] + rest[0]] + rest[1..];
      FirstPieceGrows(s, rest);
    }
  }

  lemma FirstPieceGrows(s: string, rest: seq<string>)
    requires s != "" && rest != [] && AllSafe(rest) && s[1..] == Join(rest, "*/") && !ClosesAt(s, 0)
    ensures var pieces := [[s[0]] + rest[0]] + rest[1..];
            && AllSafe(pieces) && s == Join(pieces, "*/")
            && Join(pieces, "*\\/") == [s[0]] + Join(rest, "*\\/")
  {
    assert rest[0] != "" ==> s[1] == rest[0][0];
    SeamSafe([s[0]], rest[0]);
    assert s == [s[0]] + s[1..];
    JoinFirst([s[0]], rest, "*/");
    JoinFirst([s[0]], rest, "*\\/");
  }

  lemma JoinFirst(more: string, rest: seq<string>, separator: string)
    requires rest != []
    ensures Join([more + rest[0]] + rest[1..], separator) == more + Join(rest, separator)
  {
    assert ([more + rest[0]] + rest[1..])[1..] == rest[1..];
  }

  lemma TrimStartBlank(before: string, rest: string)
    requires (before == "" || before == " ") && rest != "" && !IsSpace(rest[0])
    ensures TrimStart(before + rest) == rest
  {
    assert (before + rest)[|before|..] == rest;
  }

  lemma TrimEndBlank(core: string, after: string)
    requires (after == "" || after == " ") && core != "" && !IsSpace(core[|core| - 1])
    ensures TrimEnd(core + after) == core
  {
    assert (core + after)[..|core|] == core;
  }

  lemma TrimBlanks(before: string, core: string, after: string)
    requires (before == "" || before == " ") && (after == "" || after == " ") && core != "" && IsTrimmed(core)
    ensures Trim(before + core + after) == core
  {
    TrimStartBlank(before, core + after);
    TrimEndBlank(core, after);
    Associate(before, core, after);
  }

  /** What is written into a comment: the words of the escaped text, with single blanks between them. */
  lemma {:induction false} SanitizeMeaning(s: string) returns (words: seq<string>, gaps: seq<string>)
    ensures AreWords(IsSpace, words, gaps) && EscapeClosers(s) == Spread(words, gaps)
    ensures Sanitize(s) == Join(words, " ")
  {
    words, gaps := CollapseMeaning(IsSpace, ' ', EscapeClosers(s));
    if words != [] {
      ShrunkIsJoined(IsSpace, ' ', words, gaps);
      JoinedEnds(IsSpace, ' ', words);
      TrimBlanks(Shrunk(gaps, ' ')[0], Join(words, " "), Shrunk(gaps, ' ')[|words|]);
    }
  }

  // ----- The lines

  /** The text as the words it is made of, with closing pairs taken apart. */
  ghost predicate IsClean(clean: string, s: string) {
    exists pieces, words, gaps ::
      && IsCut(pieces, s) && AreWords(IsSpace, words, gaps)
      && Join(pieces, "*\\/") == Spread(words, gaps) && clean == Join(words, " ")
  }

  /** The stretches of the text between its closing pairs. */
  ghost predicate IsCut(pieces: seq<string>, s: string) {
    pieces != [] && AllSafe(pieces) && s == Join(pieces, "*/")
  }

  lemma SanitizedIsClean(s: string)
    ensures IsClean(Sanitize(s), s)
  {
    var pieces := EscapeMeaning(s);
    var words, gaps := SanitizeMeaning(s);
    assert IsCut(pieces, s);
  }

  /** The line is the lead with the text, cleaned, behind it. */
  ghost predicate Says(line: string, lead: string, text: string) {
    exists clean :: IsClean(clean, text) && line == lead + clean
  }

  lemma SaysSanitized(lead: string, text: string)
    ensures Says(lead + Sanitize(text), lead, text)
  {
    SanitizedIsClean(text);
  }

  /** The comment opens with what the function does and why it exists. */
  ghost predicate IsHead(lines: seq<string>, indent: string, d: Description) {
    && |lines| == 7
    && lines[0] == indent + "/**"
    && Says(lines[1], indent + " * ", d.whatItDoes)
    && lines[2] == indent + " *"
    && lines[3] == indent + " * **Why it exists:**"
    && Says(lines[4], indent + " * ", d.whyItExists)
    && lines[5] == indent + " *"
    && lines[6] == indent + " * **What it talks to:**"
  }

  ghost predicate NamesCollaborator(line: string, indent: string, c: ImportBinding) {
    exists local, imported, source ::
      && IsClean(local, c.localName) && IsClean(imported, c.importedName) && IsClean(source, c.source)
      && line == indent + " * - Uses `" + local + "` (import `" + imported + "`) from `" + source + "`."
  }

  /** The first six collaborators, and a line that there are more; or one that there is none. */
  ghost predicate IsTalk(lines: seq<string>, indent: string, cs: seq<ImportBinding>) {
    && |lines| == (if |cs| == 0 then 1 else if |cs| <= 6 then |cs| else 7)
    && (|cs| == 0 ==> lines[0] == indent + (" * - Uses local " + "constants/helpers within this module."))
    && (forall k :: 0 <= k < |cs| && k < 6 ==> NamesCollaborator(lines[k], indent, cs[k]))
    && (|cs| > 6 ==>
          lines[6] == indent + (" * - Additional imported " + "collaborators are also used "
                                + "in this function body."))
  }

  ghost predicate NamesParameter(line: string, indent: string, p: Parameter) {
    exists name, description ::
      && IsClean(name, p.name) && IsClean(description, p.description)
      && line == indent + " * @param " + name + " - " + description
  }

  /** Every parameter, below an empty line. */
  ghost predicate IsParameters(lines: seq<string>, indent: string, ps: seq<Parameter>) {
    && |lines| == (if |ps| == 0 then 0 else |ps| + 1)
    && (|ps| > 0 ==> lines[0] == indent + " *")
    && (forall k :: 0 <= k < |ps| ==> NamesParameter(lines[k + 1], indent, ps[k]))
  }

  /** What is returned, if something is said about it. */
  ghost predicate IsReturn(lines: seq<string>, indent: string, returned: Option<string>) {
    if returned == None || returned == Some("") then lines == []
    else |lines| == 1 && Says(lines[0], indent + " * @returns ", returned.value)
  }

  ghost predicate IsComment(text: string, indent: string, newline: string, d: Description) {
    exists head, talk, parameters, returned ::
      && IsHead(head, indent, d) && IsTalk(talk, indent, d.collaborators)
      && IsParameters(parameters, indent, d.parameters) && IsReturn(returned, indent, d.returnDescription)
      && text == Terminated(head + talk + parameters + returned + [indent + " */"], newline)
  }

  lemma HeadIsHead(indent: string, d: Description)
    ensures IsHead(HeadLines(indent, d), indent, d)
  {
    SaysSanitized(indent + " * ", d.whatItDoes);
    SaysSanitized(indent + " * ", d.whyItExists);
  }

  lemma LineNamesCollaborator(indent: string, c: ImportBinding)
    ensures NamesCollaborator(CollaboratorLine(indent, c), indent, c)
  {
    SanitizedIsClean(c.localName);
    SanitizedIsClean(c.importedName);
    SanitizedIsClean(c.source);
  }

  lemma SectionIsTalk(indent: string, cs: seq<ImportBinding>)
    ensures IsTalk(CollaboratorSection(indent, cs), indent, cs)
  {
    forall k | 0 <= k < |cs| ensures NamesCollaborator(CollaboratorLine(indent, cs[k]), indent, cs[k]) {
      LineNamesCollaborator(indent, cs[k]);
    }
  }

  lemma LineNamesParameter(indent: string, p: Parameter)
    ensures NamesParameter(ParameterLine(indent, p), indent, p)
  {
    SanitizedIsClean(p.name);
    SanitizedIsClean(p.description);
  }

  lemma SectionIsParameters(indent: string, ps: seq<Parameter>)
    ensures IsParameters(ParameterSection(indent, ps), indent, ps)
  {
    forall k | 0 <= k < |ps| ensures NamesParameter(ParameterLine(indent, ps[k]), indent, ps[k]) {
      LineNamesParameter(indent, ps[k]);
    }
  }

  lemma SectionIsReturn(indent: string, returned: Option<string>)
    ensures IsReturn(ReturnSection(indent, returned), indent, returned)
  {
    if returned.Some? {
      SaysSanitized(indent + " * @returns ", returned.value);
    }
  }

  /** What the rendered comment says, line by line. */
  lemma {:induction false} RenderedIsComment(indent: string, newline: string, d: Description)
    ensures IsComment(RenderComment(indent, newline, d), indent, newline, d)
  {
    var head, talk := HeadLines(indent, d), CollaboratorSection(indent, d.collaborators);
    var parameters, returned := ParameterSection(indent, d.parameters), ReturnSection(indent, d.returnDescription);
    HeadIsHead(indent, d);
    SectionIsTalk(indent, d.collaborators);
    SectionIsParameters(indent, d.parameters);
    SectionIsReturn(indent, d.returnDescription);
    var lines := BodyLines(indent, d) + [indent + " */"];
    JoinTerminates(lines, newline);
    assert lines + [""] == BodyLines(indent, d) + [indent + " */", ""];
    assert lines == head + talk + parameters + returned + [indent + " */"];
  }
}
