/** Naming and reading back the runs of several models. */
module ModelComparison {
  import opened Options
  import opened Seqs
  import opened Text
  import opened Runs

  // ----- The slug of a model name

  predicate IsSlugChar(c: char) {
    'a' <= c <= 'z' || '0' <= c <= '9'
  }

  predicate IsNoSlugChar(c: char) { !IsSlugChar(c) }

  /** `replace(/[^a-z0-9]+/g, "-")` */
  function DashRuns(s: string): string {
    CollapseRuns(IsNoSlugChar, '-', s)
  }

  function DropLeadingDashes(s: string): string {
    if s != "" && s[0] == '-' then DropLeadingDashes(s[1..]) else s
  }

  function DropTrailingDashes(s: string): string {
    if s != "" && s[|s| - 1] == '-' then DropTrailingDashes(s[..|s| - 1]) else s
  }

  function ModelSlug(lower: string -> string, model: string): string {
    DropTrailingDashes(DropLeadingDashes(DashRuns(lower(model))))
  }

  /** Lower-case letters and digits in runs, with single dashes between the runs. */
  ghost predicate IsSlug(s: string) {
    && SingleDashes(s)
    && (s != "" ==> s[0] != '-' && s[|s| - 1] != '-')
  }

  ghost predicate SingleDashes(s: string) {
    && (forall i :: 0 <= i < |s| ==> IsSlugChar(s[i]) || s[i] == '-')
    && (forall i :: 0 <= i < |s| - 1 ==> IsSlugChar(s[i]) || IsSlugChar(s[i + 1]))
  }

  /** Lower-casing leaves text that is already lower-case letters, digits and dashes alone. */
  ghost predicate LowersLetters(lower: string -> string) {
    forall s :: (forall i :: 0 <= i < |s| ==> IsSlugChar(s[i]) || s[i] == '-') ==> lower(s) == s
  }

  lemma {:induction false} DashRunsSingle(s: string)
    ensures SingleDashes(DashRuns(s))
    ensures DashRuns(s) != "" ==> s != "" && (IsSlugChar(DashRuns(s)[0]) <==> IsSlugChar(s[0]))
    ensures s != "" ==> DashRuns(s) != ""
  {
    if s != "" {
      DashRunsSingle(s[1..]);
    }
  }

  lemma {:induction false} DashRunsFixed(s: string)
    requires SingleDashes(s)
    ensures DashRuns(s) == s
  {
    if s != "" {
      var rest := s[1..];
      forall i | 0 <= i < |rest| - 1 ensures IsSlugChar(rest[i]) || IsSlugChar(rest[i + 1]) {
        assert IsSlugChar(s[i + 1]) || IsSlugChar(s[i + 2]);
      }
      DashRunsFixed(rest);
      assert s == [s[0]] + rest;
      assert |s| > 1 ==> IsSlugChar(s[0]) || IsSlugChar(s[0 + 1]);
    }
  }

  lemma DropsOne(s: string)
    requires SingleDashes(s)
    ensures var t := DropLeadingDashes(s);
            SingleDashes(t) && (t != "" ==> t[0] != '-')
    ensures var t := DropTrailingDashes(s);
            SingleDashes(t) && (t != "" ==> t[|t| - 1] != '-') && (t != "" && s != "" ==> t[0] == s[0])
  {
    if s != "" && s[0] == '-' {
      SingleSlice(s, 1, |s|);
      DropsOne(s[1..]);
    }
    if s != "" && s[|s| - 1] == '-' {
      SingleSlice(s, 0, |s| - 1);
      DropsOne(s[..|s| - 1]);
    }
  }

  lemma SingleSlice(s: string, i: nat, j: nat)
    requires SingleDashes(s) && i <= j <= |s|
    ensures SingleDashes(s[i..j])
  {
    forall k | 0 <= k < j - i - 1 ensures IsSlugChar(s[i..j][k]) || IsSlugChar(s[i..j][k + 1]) {
      assert IsSlugChar(s[i + k]) || IsSlugChar(s[i + k + 1]);
    }
  }

  /** Slugs are slugs, and are exactly the names that are their own slug; so taking the slug twice changes nothing. */
  lemma SlugMeaning(lower: string -> string, model: string)
    requires LowersLetters(lower)
    ensures IsSlug(ModelSlug(lower, model))
    ensures ModelSlug(lower, model) == model <==> IsSlug(model)
    ensures ModelSlug(lower, ModelSlug(lower, model)) == ModelSlug(lower, model)
  {
    var dashed := DashRuns(lower(model));
    DashRunsSingle(lower(model));
    DropsOne(dashed);
    DropsOne(DropLeadingDashes(dashed));
    SlugIsFixed(lower, ModelSlug(lower, model));
    if IsSlug(model) {
      SlugIsFixed(lower, model);
    }
  }

  lemma SlugIsFixed(lower: string -> string, s: string)
    requires LowersLetters(lower) && IsSlug(s)
    ensures ModelSlug(lower, s) == s
  {
    DashRunsFixed(s);
  }

  // ----- The slug of any name

  /** The characters of a slug, by their codes. */
  lemma SlugCodes(c: char)
    ensures IsSlugChar(c) <==> 97 <= c as int <= 122 || 48 <= c as int <= 57
  {
  }

  lemma DropLeadingDash(before: string, rest: string)
    requires (before == "" || before == "-") && rest != "" && rest[0] != '-'
    ensures DropLeadingDashes(before + rest) == rest
  {
    assert (before + rest)[|before|..] == rest;
  }

  lemma DropTrailingDash(core: string, after: string)
    requires (after == "" || after == "-") && core != "" && core[|core| - 1] != '-'
    ensures DropTrailingDashes(core + after) == core
  {
    assert (core + after)[..|core|] == core;
  }

  /** The slug of a name: the runs of letters and digits in its lower case, with single dashes between them. */
  lemma SlugOfAnyName(lower: string -> string, model: string) returns (words: seq<string>, gaps: seq<string>)
    ensures AreWords(IsNoSlugChar, words, gaps) && lower(model) == Spread(words, gaps)
    ensures ModelSlug(lower, model) == Join(words, "-")
  {
    words, gaps := CollapseMeaning(IsNoSlugChar, '-', lower(model));
    if words != [] {
      var slug, shrunk := Join(words, "-"), Shrunk(gaps, '-');
      ShrunkIsJoined(IsNoSlugChar, '-', words, gaps);
      JoinedEnds(IsNoSlugChar, '-', words);
      Associate(shrunk[0], slug, shrunk[|words|]);
      DropLeadingDash(shrunk[0], slug + shrunk[|words|]);
      DropTrailingDash(slug, shrunk[|words|]);
    }
  }

  // ----- The latest metadata of an approved action

  datatype ActionResult<M> = ActionResult(approved: bool, action: string, executionMetadata: Option<M>)
  datatype TaskRun<M> = TaskRun(actionResults: seq<ActionResult<M>>)

  ghost predicate QualifiesAt<M>(runs: seq<TaskRun<M>>, p: ActionResult<M> -> bool, r: int, i: int) {
    && 0 <= r < |runs| && 0 <= i < |runs[r].actionResults|
    && var result := runs[r].actionResults[i]; result.approved && p(result) && result.executionMetadata.Some?
  }

  /**
   The metadata is that of the last result of the last run that has one that qualifies; none is found if none does.
   */
  ghost predicate IsLatest<M>(runs: seq<TaskRun<M>>, p: ActionResult<M> -> bool, found: Option<M>) {
    match found
    case None => forall r, i :: !QualifiesAt(runs, p, r, i)
    case Some(_) =>
      exists r, i :: QualifiesAt(runs, p, r, i) && runs[r].actionResults[i].executionMetadata == found
                     && (forall k :: i < k ==> !QualifiesAt(runs, p, r, k))
                     && (forall q, k :: r < q ==> !QualifiesAt(runs, p, q, k))
  }

  method FindLatestApprovedActionMetadata<M>(runs: seq<TaskRun<M>>, p: ActionResult<M> -> bool)
    returns (found: Option<M>)
    ensures IsLatest(runs, p, found)
  {
    var runIndex: nat := |runs|;
    while runIndex > 0
      invariant runIndex <= |runs|
      invariant forall q, k :: runIndex <= q ==> !QualifiesAt(runs, p, q, k)
    {
      runIndex := runIndex - 1;
      var results := runs[runIndex].actionResults;
      var resultIndex: nat := |results|;
      while resultIndex > 0
        invariant resultIndex <= |results|
        invariant forall k :: resultIndex <= k ==> !QualifiesAt(runs, p, runIndex, k)
      {
        resultIndex := resultIndex - 1;
        var result := results[resultIndex];
        if result.approved && p(result) && result.executionMetadata.Some? {
          assert QualifiesAt(runs, p, runIndex, resultIndex);
          return result.executionMetadata;
        }
      }
    }
    found := None;
  }
}
