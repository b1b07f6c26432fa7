/** What `replace(/[...]+/g, separator)` does: of every run of the characters in the class it leaves one separator. */
module Runs {
  import opened Text

  function CollapseRuns(isGap: char -> bool, separator: char, s: string): string {
    if s == "" then ""
    else if !isGap(s[0]) then [s[0]] + CollapseRuns(isGap, separator, s[1..])
    else if |s| > 1 && isGap(s[1]) then CollapseRuns(isGap, separator, s[1..])
    else [separator] + CollapseRuns(isGap, separator, s[1..])
  }

  ghost predicate IsWord(isGap: char -> bool, s: string) {
    s != "" && forall c :: c in s ==> !isGap(c)
  }

  ghost predicate IsGap(isGap: char -> bool, s: string) {
    forall c :: c in s ==> isGap(c)
  }

  /** Words with a gap between any two of them, and perhaps around them. */
  ghost predicate AreWords(isGap: char -> bool, words: seq<string>, gaps: seq<string>) {
    && |gaps| == |words| + 1
    && (forall i :: 0 <= i < |words| ==> IsWord(isGap, words[i]))
    && (forall i :: 0 <= i < |gaps| ==> IsGap(isGap, gaps[i]))
    && (forall i :: 0 < i < |words| ==> gaps[i] != "")
  }

  ghost function Spread(words: seq<string>, gaps: seq<string>): string
    requires |gaps| == |words| + 1
  {
    if words == [] then gaps[0] else gaps[0] + words[0] + Spread(words[1..], gaps[1..])
  }

  ghost function Shrunk(gaps: seq<string>, separator: char): seq<string> {
    seq(|gaps|, i requires 0 <= i < |gaps| => if gaps[i] == "" then "" else [separator])
  }

  /** The text is made of these words, with these gaps, and collapsing it shrinks the gaps. */
  ghost predicate Collapses(isGap: char -> bool, separator: char, s: string, words: seq<string>, gaps: seq<string>) {
    && AreWords(isGap, words, gaps) && s == Spread(words, gaps)
    && CollapseRuns(isGap, separator, s) == Spread(words, Shrunk(gaps, separator))
  }

  /** Collapsing leaves the words, and a single separator of each gap. */
  lemma {:induction false} CollapseMeaning(isGap: char -> bool, separator: char, s: string)
    returns (words: seq<string>, gaps: seq<string>)
    ensures Collapses(isGap, separator, s, words, gaps)
  {
    if s == "" {
      words, gaps := [], [""];
    } else {
      words, gaps := CollapseMeaning(isGap, separator, s[1..]);
      if isGap(s[0]) {
        GapGrows(isGap, separator, s, words, gaps);
        gaps := [[s[0]] + gaps[0]] + gaps[1..];
      } else if words != [] && gaps[0] == "" {
        WordGrows(isGap, separator, s, words, gaps);
        words := [[s[0]] + words[0]] + words[1..];
      } else {
        WordStarts(isGap, separator, s, words, gaps);
        words, gaps := [[s[0]]] + words, [""] + gaps;
      }
    }
  }

  lemma FirstGapGrows(words: seq<string>, gaps: seq<string>, more: string)
    requires |gaps| == |words| + 1
    ensures Spread(words, [more + gaps[0]] + gaps[1..]) == more + Spread(words, gaps)
  {
    assert ([more + gaps[0]] + gaps[1..])[1..] == gaps[1..];
  }

  /** A gap that gets longer shrinks to one separator all the same. */
  lemma ShrunkGrows(gaps: seq<string>, separator: char, more: string)
    requires gaps != [] && more != ""
    ensures Shrunk([more + gaps[0]] + gaps[1..], separator) == [[separator]] + Shrunk(gaps, separator)[1..]
    ensures gaps[0] != "" ==> Shrunk(gaps, separator) == [[separator]] + Shrunk(gaps, separator)[1..]
    ensures gaps[0] == "" ==> Shrunk(gaps, separator) == [""] + Shrunk(gaps, separator)[1..]
  {
    var wider := [more + gaps[0]] + gaps[1..];
    assert wider[0] != "" && forall k :: 0 < k < |gaps| ==> wider[k] == gaps[k];
  }

  lemma GapCollapses(isGap: char -> bool, separator: char, s: string, words: seq<string>, gaps: seq<string>)
    requires s != "" && isGap(s[0]) && AreWords(isGap, words, gaps) && s[1..] == Spread(words, gaps)
    ensures CollapseRuns(isGap, separator, s)
         == (if gaps[0] == "" then [separator] else "") + CollapseRuns(isGap, separator, s[1..])
  {
    if gaps[0] != "" {
      assert s[1] == gaps[0][0];
    } else {
      assert words != [] ==> s[1] == words[0][0];
    }
  }

  lemma StillWords(isGap: char -> bool, words: seq<string>, gaps: seq<string>, c: char)
    requires AreWords(isGap, words, gaps) && isGap(c)
    ensures AreWords(isGap, words, [[c] + gaps[0]] + gaps[1..])
  {
  }

  lemma CollapsedGrows(isGap: char -> bool, separator: char, s: string, words: seq<string>, gaps: seq<string>)
    requires s != "" && isGap(s[0]) && Collapses(isGap, separator, s[1..], words, gaps)
    ensures CollapseRuns(isGap, separator, s) == Spread(words, Shrunk([[s[0]] + gaps[0]] + gaps[1..], separator))
  {
    var shrunk, more := Shrunk(gaps, separator), if gaps[0] == "" then [separator] else "";
    ShrunkGrows(gaps, separator, [s[0]]);
    assert more + shrunk[0] == [separator];
    GapCollapses(isGap, separator, s, words, gaps);
    FirstGapGrows(words, shrunk, more);
  }

  lemma GapGrows(isGap: char -> bool, separator: char, s: string, words: seq<string>, gaps: seq<string>)
    requires s != "" && isGap(s[0]) && Collapses(isGap, separator, s[1..], words, gaps)
    ensures Collapses(isGap, separator, s, words, [[s[0]] + gaps[0]] + gaps[1..])
  {
    StillWords(isGap, words, gaps, s[0]);
    assert s == [s[0]] + s[1..];
    FirstGapGrows(words, gaps, [s[0]]);
    CollapsedGrows(isGap, separator, s, words, gaps);
  }

  lemma WordGrows(isGap: char -> bool, separator: char, s: string, words: seq<string>, gaps: seq<string>)
    requires s != "" && !isGap(s[0]) && Collapses(isGap, separator, s[1..], words, gaps) && words != [] && gaps[0] == ""
    ensures Collapses(isGap, separator, s, [[s[0]] + words[0]] + words[1..], gaps)
  {
    var longer := [[s[0]] + words[0]] + words[1..];
    assert s == [s[0]] + s[1..] && longer[1..] == words[1..];
  }

  lemma WordStarts(isGap: char -> bool, separator: char, s: string, words: seq<string>, gaps: seq<string>)
    requires s != "" && !isGap(s[0]) && Collapses(isGap, separator, s[1..], words, gaps)
    requires words == [] || gaps[0] != ""
    ensures Collapses(isGap, separator, s, [[s[0]]] + words, [""] + gaps)
  {
    var more, wider := [[s[0]]] + words, [""] + gaps;
    assert s == [s[0]] + s[1..] && more[1..] == words && wider[1..] == gaps;
    assert Shrunk(wider, separator)[1..] == Shrunk(gaps, separator);
  }

  /** Words with a separator between any two. */
  lemma {:induction false} SpreadIsJoined(words: seq<string>, gaps: seq<string>, separator: string)
    requires |gaps| == |words| + 1 && words != [] && forall i :: 0 < i < |words| ==> gaps[i] == separator
    ensures Spread(words, gaps) == gaps[0] + Join(words, separator) + gaps[|words|]
  {
    if |words| == 1 {
      assert words[1..] == [];
    } else {
      SpreadIsJoined(words[1..], gaps[1..], separator);
      assert gaps[1] == separator;
    }
  }

  /** But for a separator in front and one behind, the words stand with one between any two. */
  lemma ShrunkIsJoined(isGap: char -> bool, separator: char, words: seq<string>, gaps: seq<string>)
    requires AreWords(isGap, words, gaps) && words != []
    ensures var shrunk := Shrunk(gaps, separator);
            Spread(words, shrunk) == shrunk[0] + Join(words, [separator]) + shrunk[|words|]
  {
    SpreadIsJoined(words, Shrunk(gaps, separator), [separator]);
  }

  /** Joined words begin and end with characters of words. */
  lemma {:induction false} JoinedEnds(isGap: char -> bool, separator: char, words: seq<string>)
    requires words != [] && forall i :: 0 <= i < |words| ==> IsWord(isGap, words[i])
    ensures var joined := Join(words, [separator]);
            joined != "" && !isGap(joined[0]) && !isGap(joined[|joined| - 1])
  {
    if |words| > 1 {
      JoinedEnds(isGap, separator, words[1..]);
    }
  }
}
