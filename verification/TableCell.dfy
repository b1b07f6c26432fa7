/** `escapeTableCell`: a chain of global replacements, shown to be one pass over the characters, with its decoder. */
module TableCell {
  import opened Options
  import opened Text

  /** `s.replace(/c/g, t)` for a single character. */
  function ReplaceChar(s: string, c: char, t: string): string {
    if s == "" then "" else (if s[0] == c then t else [s[0]]) + ReplaceChar(s[1..], c, t)
  }

  /** `s.replace(/\r?\n/g, " ")` */
  function ReplaceNewlines(s: string): string {
    if s == "" then ""
    else if |s| > 1 && s[0] == '\r' && s[1] == '\n' then " " + ReplaceNewlines(s[2..])
    else (if s[0] == '\n' then " " else [s[0]]) + ReplaceNewlines(s[1..])
  }

  /** The replacements of single characters, in the source's order. */
  function ReplaceSpecials(s: string): string {
    var s1 := ReplaceChar(s, '&', "&amp;");
    var s2 := ReplaceChar(s1, '<', "&lt;");
    var s3 := ReplaceChar(s2, '>', "&gt;");
    var s4 := ReplaceChar(s3, '"', "&quot;");
    var s5 := ReplaceChar(s4, '\'', "&#39;");
    var s6 := ReplaceChar(s5, '`', "&#96;");
    ReplaceChar(s6, '|', "\\|")
  }

  function EscapeTableCell(value: string): string {
    Trim(ReplaceNewlines(ReplaceSpecials(value)))
  }

  // ----- One pass

  function Entity(c: char): string {
    match c
    case '&' => "&amp;"
    case '<' => "&lt;"
    case '>' => "&gt;"
    case '"' => "&quot;"
    case '\'' => "&#39;"
    case '`' => "&#96;"
    case '|' => "\\|"
    case _ => [c]
  }

  function Encode(s: string): string {
    if s == "" then "" else Entity(s[0]) + Encode(s[1..])
  }

  lemma {:induction false} ReplaceConcat(a: string, b: string, c: char, t: string)
    ensures ReplaceChar(a + b, c, t) == ReplaceChar(a, c, t) + ReplaceChar(b, c, t)
  {
    if a == "" {
      assert a + b == b;
    } else {
      assert (a + b)[1..] == a[1..] + b;
      ReplaceConcat(a[1..], b, c, t);
    }
  }

  lemma {:induction false} ReplaceAbsent(s: string, c: char, t: string)
    requires c !in s
    ensures ReplaceChar(s, c, t) == s
  {
    if s != "" {
      ReplaceAbsent(s[1..], c, t);
      assert s == [s[0]] + s[1..];
    }
  }

  lemma ReplaceOne(x: char, c: char, t: string)
    ensures ReplaceChar([x], c, t) == if x == c then t else [x]
  {
    assert [x][1..] == "";
  }

  lemma SpecialsConcat(a: string, b: string)
    ensures ReplaceSpecials(a + b) == ReplaceSpecials(a) + ReplaceSpecials(b)
  {
    ReplaceConcat(a, b, '&', "&amp;");
    var a1, b1 := ReplaceChar(a, '&', "&amp;"), ReplaceChar(b, '&', "&amp;");
    ReplaceConcat(a1, b1, '<', "&lt;");
    var a2, b2 := ReplaceChar(a1, '<', "&lt;"), ReplaceChar(b1, '<', "&lt;");
    ReplaceConcat(a2, b2, '>', "&gt;");
    var a3, b3 := ReplaceChar(a2, '>', "&gt;"), ReplaceChar(b2, '>', "&gt;");
    ReplaceConcat(a3, b3, '"', "&quot;");
    var a4, b4 := ReplaceChar(a3, '"', "&quot;"), ReplaceChar(b3, '"', "&quot;");
    ReplaceConcat(a4, b4, '\'', "&#39;");
    var a5, b5 := ReplaceChar(a4, '\'', "&#39;"), ReplaceChar(b4, '\'', "&#39;");
    ReplaceConcat(a5, b5, '`', "&#96;");
    var a6, b6 := ReplaceChar(a5, '`', "&#96;"), ReplaceChar(b5, '`', "&#96;");
    ReplaceConcat(a6, b6, '|', "\\|");
  }

  /** The place of a character in the chain of replacements. */
  function Rank(c: char): nat {
    match c
    case '&' => 0
    case '<' => 1
    case '>' => 2
    case '"' => 3
    case '\'' => 4
    case '`' => 5
    case '|' => 6
    case _ => 7
  }

  /** What has become of `x` before the replacement of rank `k`. */
  ghost function Partly(x: char, k: nat): string {
    if Rank(x) < k then Entity(x) else [x]
  }

  /** A replacement does not touch what an earlier one inserted. */
  lemma ReplaceStep(x: char, c: char)
    requires Rank(c) < 7
    ensures ReplaceChar(Partly(x, Rank(c)), c, Entity(c)) == Partly(x, Rank(c) + 1)
  {
    if Rank(x) < Rank(c) {
      EarlierEntityAvoids(x, c);
      ReplaceAbsent(Entity(x), c, Entity(c));
    } else {
      ReplaceOne(x, c, Entity(c));
    }
  }

  lemma EarlierEntityAvoids(x: char, c: char)
    requires Rank(x) < Rank(c) < 7
    ensures c !in Entity(x)
  {
  }

  lemma SpecialsOne(x: char)
    ensures ReplaceSpecials([x]) == Entity(x)
  {
    ReplaceStep(x, '&');
    ReplaceStep(x, '<');
    ReplaceStep(x, '>');
    ReplaceStep(x, '"');
    ReplaceStep(x, '\'');
    ReplaceStep(x, '`');
    ReplaceStep(x, '|');
    assert Partly(x, 0) == [x] && Partly(x, 7) == Entity(x);
  }

  /** The seven replacements together are one pass, character by character. */
  lemma {:induction false} SpecialsAreEncode(s: string)
    ensures ReplaceSpecials(s) == Encode(s)
  {
    if s != "" {
      assert s == [s[0]] + s[1..];
      SpecialsConcat([s[0]], s[1..]);
      SpecialsOne(s[0]);
      SpecialsAreEncode(s[1..]);
    }
  }

  // ----- Newlines and trimming commute with the pass

  lemma EntityShape(c: char)
    ensures Entity(c) != ""
    ensures IsSpace(c) ==> Entity(c) == [c]
    ensures !IsSpace(c) ==> !IsSpace(Entity(c)[0]) && !IsSpace(Entity(c)[|Entity(c)| - 1])
    ensures c != '\r' && c != '\n' ==> '\r' !in Entity(c) && '\n' !in Entity(c)
    ensures Entity(c)[0] == '\n' ==> c == '\n'
    ensures Entity(c)[0] != '|'
  {
  }

  lemma {:induction false} NewlinesAfter(plain: string, rest: string)
    requires '\r' !in plain && '\n' !in plain
    ensures ReplaceNewlines(plain + rest) == plain + ReplaceNewlines(rest)
  {
    if plain == "" {
      assert plain + rest == rest;
    } else {
      assert (plain + rest)[1..] == plain[1..] + rest;
      assert plain == [plain[0]] + plain[1..];
      NewlinesAfter(plain[1..], rest);
    }
  }

  lemma NewlinesAtBreak(first: char, rest: string)
    requires first == '\r' || first == '\n'
    ensures ReplaceNewlines([first] + rest)
         == if first == '\n' then " " + ReplaceNewlines(rest)
            else if rest != "" && rest[0] == '\n' then " " + ReplaceNewlines(rest[1..])
            else [first] + ReplaceNewlines(rest)
  {
    var s := [first] + rest;
    assert s[1..] == rest;
    if rest != "" {
      assert s[2..] == rest[1..];
    }
  }

  lemma {:induction false} NewlinesCommute(s: string)
    ensures ReplaceNewlines(Encode(s)) == Encode(ReplaceNewlines(s))
    decreases |s|, 1
  {
    if s != "" {
      var rest := Encode(s[1..]);
      assert s == [s[0]] + s[1..];
      EntityShape(s[0]);
      if s[0] == '\r' || s[0] == '\n' {
        NewlinesAtBreak(s[0], s[1..]);
        NewlinesAtBreak(s[0], rest);
        NewlinesCommuteAfterBreak(s[0], s[1..]);
      } else {
        NewlinesCommute(s[1..]);
        NewlinesAfter(Entity(s[0]), rest);
        NewlinesAfter([s[0]], s[1..]);
        assert ([s[0]] + ReplaceNewlines(s[1..]))[1..] == ReplaceNewlines(s[1..]);
      }
    }
  }

  lemma {:induction false} NewlinesCommuteAfterBreak(first: char, tail: string)
    requires first == '\r' || first == '\n'
    ensures ReplaceNewlines([first] + Encode(tail)) == Encode(ReplaceNewlines([first] + tail))
    decreases |tail| + 1, 0
  {
    NewlinesAtBreak(first, tail);
    NewlinesAtBreak(first, Encode(tail));
    if tail != "" {
      EntityShape(tail[0]);
    }
    if first == '\r' && tail != "" && tail[0] == '\n' {
      NewlinesCommute(tail[1..]);
      assert Encode(tail)[1..] == Encode(tail[1..]);
      EncodeBlank(' ', ReplaceNewlines(tail[1..]));
    } else {
      NewlinesCommute(tail);
      EncodeBlank(if first == '\n' then ' ' else first, ReplaceNewlines(tail));
    }
  }

  lemma EncodeBlank(c: char, rest: string)
    requires IsSpace(c)
    ensures Encode([c] + rest) == [c] + Encode(rest)
  {
    EntityShape(c);
    assert ([c] + rest)[1..] == rest;
  }

  lemma {:induction false} TrimStartCommutes(s: string)
    ensures TrimStart(Encode(s)) == Encode(TrimStart(s))
  {
    if s != "" {
      EntityShape(s[0]);
      if IsSpace(s[0]) {
        assert Encode(s)[1..] == Encode(s[1..]);
        TrimStartCommutes(s[1..]);
      }
    }
  }

  lemma {:induction false} EncodeConcat(a: string, b: string)
    ensures Encode(a + b) == Encode(a) + Encode(b)
  {
    if a == "" {
      assert a + b == b;
    } else {
      assert (a + b)[1..] == a[1..] + b;
      EncodeConcat(a[1..], b);
    }
  }

  lemma {:induction false} TrimEndCommutes(s: string)
    ensures TrimEnd(Encode(s)) == Encode(TrimEnd(s))
  {
    if s != "" {
      var front, last := s[..|s| - 1], s[|s| - 1];
      assert s == front + [last] && [last][1..] == "";
      EncodeConcat(front, [last]);
      assert Encode([last]) == Entity(last);
      EntityShape(last);
      if IsSpace(last) {
        assert Encode(s)[..|Encode(s)| - 1] == Encode(front);
        TrimEndCommutes(front);
      }
    }
  }

  /** The cell is the one-pass encoding of the trimmed value with its newlines blanked. */
  lemma {:induction false} EscapeIsEncode(value: string)
    ensures EscapeTableCell(value) == Encode(Trim(ReplaceNewlines(value)))
  {
    SpecialsAreEncode(value);
    NewlinesCommute(value);
    TrimStartCommutes(ReplaceNewlines(value));
    TrimEndCommutes(TrimStart(ReplaceNewlines(value)));
  }

  // ----- What the cell cannot contain

  predicate IsRaw(c: char) {
    c == '<' || c == '>' || c == '"' || c == '\'' || c == '`' || c == '\n'
  }

  ghost predicate PipesEscaped(s: string) {
    forall i :: 0 <= i < |s| && s[i] == '|' ==> i > 0 && s[i - 1] == '\\'
  }

  lemma {:induction false} NoNewlines(s: string)
    ensures '\n' !in ReplaceNewlines(s)
    decreases |s|
  {
    if s != "" {
      NoNewlines(s[1..]);
      if |s| > 1 {
        NoNewlines(s[2..]);
      }
    }
  }

  lemma {:induction false} EncodeIsClean(s: string)
    requires '\n' !in s
    ensures forall c :: c in Encode(s) ==> !IsRaw(c)
  {
    if s != "" {
      EncodeIsClean(s[1..]);
      EntityShape(s[0]);
      assert forall c :: c in Entity(s[0]) ==> !IsRaw(c);
    }
  }

  lemma PipesConcat(e: string, rest: string)
    requires PipesEscaped(e) && PipesEscaped(rest)
    ensures PipesEscaped(e + rest)
  {
    forall i | 0 <= i < |e + rest| && (e + rest)[i] == '|' ensures i > 0 && (e + rest)[i - 1] == '\\' {
      if i >= |e| {
        assert rest[i - |e|] == '|';
      }
    }
  }

  lemma {:induction false} EncodePipes(s: string)
    ensures PipesEscaped(Encode(s))
  {
    if s != "" {
      EncodePipes(s[1..]);
      EntityShape(s[0]);
      assert PipesEscaped(Entity(s[0]));
      PipesConcat(Entity(s[0]), Encode(s[1..]));
    }
  }

  lemma {:induction false} CellIsClean(value: string)
    ensures forall c :: c in EscapeTableCell(value) ==>
              c != '<' && c != '>' && c != '"' && c != '\'' && c != '`' && c != '\n'
    ensures PipesEscaped(EscapeTableCell(value)) && IsTrimmed(EscapeTableCell(value))
  {
    EscapeIsEncode(value);
    NoNewlines(value);
    var from, to := TrimSlice(ReplaceNewlines(value));
    EncodeIsClean(Trim(ReplaceNewlines(value)));
    EncodePipes(Trim(ReplaceNewlines(value)));
    var f, t := TrimSlice(ReplaceNewlines(ReplaceSpecials(value)));
  }

  // ----- The decoder

  predicate StartsWith(s: string, prefix: string) { prefix <= s }

  /** The character whose entity stands at the head of the text. */
  function EntityAtHead(s: string): Option<char> {
    if StartsWith(s, Entity('&')) then Some('&')
    else if StartsWith(s, Entity('<')) then Some('<')
    else if StartsWith(s, Entity('>')) then Some('>')
    else if StartsWith(s, Entity('"')) then Some('"')
    else if StartsWith(s, Entity('\'')) then Some('\'')
    else if StartsWith(s, Entity('`')) then Some('`')
    else if StartsWith(s, Entity('|')) then Some('|')
    else None
  }

  function Decode(s: string): string
    decreases |s|
  {
    if s == "" then ""
    else
      match EntityAtHead(s)
      case Some(c) => [c] + Decode(s[|Entity(c)|..])
      case None => [s[0]] + Decode(s[1..])
  }

  lemma PrefixSplit(e: string, rest: string)
    ensures (e + rest)[|e|..] == rest && (e + rest)[..|e|] == e
    ensures e <= e + rest
  {
  }

  /** No entity is a prefix of another one and what follows it. */
  lemma EntitiesPrefixFree(c: char, d: char, rest: string)
    requires Rank(c) < 7 && Rank(d) < 7 && c != d
    ensures !StartsWith(Entity(c) + rest, Entity(d))
  {
    var s := Entity(c) + rest;
    assert forall i :: 0 <= i < |Entity(c)| ==> s[i] == Entity(c)[i];
    if StartsWith(s, Entity(d)) {
      assert forall i :: 0 <= i < |Entity(d)| ==> s[i] == Entity(d)[i];
      EntitiesDiffer(c, d);
    }
  }

  lemma EntitiesDiffer(c: char, d: char)
    requires Rank(c) < 7 && Rank(d) < 7 && c != d
    ensures exists i :: 0 <= i < |Entity(c)| && i < |Entity(d)| && Entity(c)[i] != Entity(d)[i]
  {
    if c == '|' || d == '|' {
      assert Entity(c)[0] != Entity(d)[0];
    } else if Entity(c)[1] != Entity(d)[1] {
      assert Entity(c)[1] != Entity(d)[1];
    } else {
      assert Entity(c)[2] != Entity(d)[2];
    }
  }

  lemma DecodeEntity(c: char, rest: string)
    requires Rank(c) < 7
    ensures Decode(Entity(c) + rest) == [c] + Decode(rest)
  {
    PrefixSplit(Entity(c), rest);
    forall d | Rank(d) < 7 && d != c ensures !StartsWith(Entity(c) + rest, Entity(d)) {
      EntitiesPrefixFree(c, d, rest);
    }
    HeadIs(Entity(c) + rest, c);
  }

  lemma HeadIs(s: string, c: char)
    requires Rank(c) < 7 && StartsWith(s, Entity(c))
    requires forall d :: Rank(d) < 7 && d != c ==> !StartsWith(s, Entity(d))
    ensures EntityAtHead(s) == Some(c)
  {
  }

  lemma PrefixHead(s: string, prefix: string)
    requires s != "" && prefix != "" && prefix <= s
    ensures s[0] == prefix[0] && (|prefix| > 1 ==> s[1] == prefix[1])
  {
  }

  lemma DecodePlain(c: char, rest: string)
    requires Rank(c) == 7 && (rest != "" ==> rest[0] != '|')
    ensures Decode([c] + rest) == [c] + Decode(rest)
  {
    var s := [c] + rest;
    assert s[0] == c && s[1..] == rest;
    PlainHead(s);
  }

  lemma PlainHead(s: string)
    requires s != "" && Rank(s[0]) == 7 && (|s| > 1 ==> s[1] != '|')
    ensures EntityAtHead(s).None?
  {
    if EntityAtHead(s).Some? {
      PrefixHead(s, Entity(EntityAtHead(s).value));
    }
  }

  lemma {:induction false} DecodeStep(c: char, rest: string)
    requires rest != "" ==> rest[0] != '|'
    ensures Decode(Entity(c) + rest) == [c] + Decode(rest)
  {
    if Rank(c) == 7 {
      DecodePlain(c, rest);
    } else {
      DecodeEntity(c, rest);
    }
  }

  lemma {:induction false} EncodeStart(s: string)
    ensures Encode(s) != "" ==> Encode(s)[0] != '|'
  {
    if s != "" {
      EntityShape(s[0]);
    }
  }

  lemma {:induction false} DecodeEncode(s: string)
    ensures Decode(Encode(s)) == s
  {
    if s != "" {
      EncodeStart(s[1..]);
      DecodeStep(s[0], Encode(s[1..]));
      DecodeEncode(s[1..]);
      assert s == [s[0]] + s[1..];
    }
  }

  /** The value comes back from the cell, up to newlines and outer space. */
  lemma {:induction false} CellRoundTrip(value: string)
    ensures Decode(EscapeTableCell(value)) == Trim(ReplaceNewlines(value))
  {
    EscapeIsEncode(value);
    DecodeEncode(Trim(ReplaceNewlines(value)));
  }

  /** Two values share a cell exactly when they differ in newlines and outer space alone. */
  lemma {:induction false} CellsDistinguish(a: string, b: string)
    ensures EscapeTableCell(a) == EscapeTableCell(b) <==> Trim(ReplaceNewlines(a)) == Trim(ReplaceNewlines(b))
  {
    CellRoundTrip(a);
    CellRoundTrip(b);
    EscapeIsEncode(a);
    EscapeIsEncode(b);
  }

  // ----- Backslashes in the value

  /**
   Whether a reader that takes every backslash together with the character after it, as the backslash escapes of
   CommonMark do, meets a bare pipe.  `taken` says that the first character belongs to a backslash before it.
   */
  predicate MeetsBarePipe(s: string, taken: bool) {
    s != ""
    && (if taken then MeetsBarePipe(s[1..], false)
        else if s[0] == '|' then true
        else MeetsBarePipe(s[1..], s[0] == '\\'))
  }

  /** The number of backslashes directly before position `i`. */
  function BackslashesBefore(s: string, i: nat): nat
    requires i <= |s|
  {
    if i == 0 || s[i - 1] != '\\' then 0 else BackslashesBefore(s, i - 1) + 1
  }

  lemma {:induction false} SkipPlain(e: string, rest: string, taken: bool)
    requires e != "" && '|' !in e && '\\' !in e
    ensures MeetsBarePipe(e + rest, taken) == MeetsBarePipe(rest, false)
  {
    assert (e + rest)[1..] == e[1..] + rest;
    if |e| == 1 {
      assert e[1..] + rest == rest;
    } else {
      SkipPlain(e[1..], rest, false);
    }
  }

  /**
   Reading an encoded value: a backslash flips `taken`, and a pipe is bare exactly when its own backslash was taken.
   */
  lemma {:induction false} BarePipeStep(s: string, taken: bool)
    requires s != ""
    ensures MeetsBarePipe(Encode(s), taken)
         <==> (s[0] == '|' && taken) || MeetsBarePipe(Encode(s[1..]), s[0] == '\\' && !taken)
  {
    var rest := Encode(s[1..]);
    if s[0] == '|' {
      var tail := "|" + rest;
      assert Encode(s) == ['\\'] + tail;
      assert (['\\'] + tail)[1..] == tail && tail[1..] == rest;
    } else if s[0] == '\\' {
      assert Encode(s) == ['\\'] + rest;
      assert (['\\'] + rest)[1..] == rest;
    } else {
      SkipPlain(Entity(s[0]), rest, taken);
    }
  }

  /** Some pipe from `k` on has an odd number of backslashes directly before it. */
  ghost predicate OddPipeFrom(s: string, k: nat) {
    exists i :: k <= i < |s| && s[i] == '|' && BackslashesBefore(s, i) % 2 == 1
  }

  /** The same, reading `s` from its first character. */
  predicate OddPipeIn(s: string, taken: bool) {
    s != "" && ((s[0] == '|' && taken) || OddPipeIn(s[1..], s[0] == '\\' && !taken))
  }

  lemma {:induction false} BarePipeIsOddPipe(s: string, taken: bool)
    ensures MeetsBarePipe(Encode(s), taken) == OddPipeIn(s, taken)
  {
    if s != "" {
      BarePipeStep(s, taken);
      BarePipeIsOddPipe(s[1..], s[0] == '\\' && !taken);
    }
  }

  lemma {:induction false} OddPipeMeaning(s: string, k: nat)
    requires k <= |s|
    ensures OddPipeIn(s[k..], BackslashesBefore(s, k) % 2 == 1) <==> OddPipeFrom(s, k)
    decreases |s| - k
  {
    if k < |s| {
      assert s[k..][0] == s[k] && s[k..][1..] == s[k + 1..];
      OddPipeMeaning(s, k + 1);
    }
  }

  lemma BarePipes(s: string)
    ensures MeetsBarePipe(Encode(s), false) <==> OddPipeFrom(s, 0)
  {
    assert s[0..] == s;
    BarePipeIsOddPipe(s, false);
    OddPipeMeaning(s, 0);
  }

  /**
   Backslashes of the value are not escaped themselves.  To such a reader the cell falls apart exactly when a pipe of
   the value has an odd number of backslashes before it.
   */
  lemma {:induction false} CellFallsApart(value: string)
    ensures MeetsBarePipe(EscapeTableCell(value), false) <==> OddPipeFrom(Trim(ReplaceNewlines(value)), 0)
  {
    EscapeIsEncode(value);
    BarePipes(Trim(ReplaceNewlines(value)));
  }

  /** So does the cell of a backslash and a pipe. */
  lemma {:induction false} EscapedPipeFallsApart()
    ensures MeetsBarePipe(EscapeTableCell("\\|"), false)
  {
    var s := "\\|";
    assert s[1..][1..] == "" && s[2..] == "";
    assert ReplaceNewlines(s) == s;
    TrimOfTrimmed(s);
    assert BackslashesBefore(s, 1) == 1;
    CellFallsApart(s);
  }

  // ----- Carriage returns

  ghost predicate LoneReturn(s: string, i: int) {
    0 <= i < |s| && s[i] == '\r' && (i + 1 < |s| ==> s[i + 1] != '\n')
  }

  /** Where the character at `q` comes from when newlines are replaced. */
  function Origin(s: string, q: nat): (i: nat)
    requires q < |ReplaceNewlines(s)|
    ensures i < |s|
  {
    if |s| > 1 && s[0] == '\r' && s[1] == '\n' then (if q == 0 then 0 else 2 + Origin(s[2..], q - 1))
    else if q == 0 then 0 else 1 + Origin(s[1..], q - 1)
  }

  lemma {:induction false} OriginAscends(s: string, q: nat, r: nat)
    requires q < r < |ReplaceNewlines(s)|
    ensures Origin(s, q) < Origin(s, r)
  {
    if q > 0 {
      OriginAscends(if |s| > 1 && s[0] == '\r' && s[1] == '\n' then s[2..] else s[1..], q - 1, r - 1);
    }
  }

  lemma {:induction false} OriginMeaning(s: string, q: nat)
    requires q < |ReplaceNewlines(s)|
    ensures var i := Origin(s, q);
            ReplaceNewlines(s)[q] == if s[i] == '\n' || (s[i] == '\r' && !LoneReturn(s, i)) then ' ' else s[i]
  {
    if q > 0 {
      var rest := if |s| > 1 && s[0] == '\r' && s[1] == '\n' then s[2..] else s[1..];
      OriginMeaning(rest, q - 1);
      assert LoneReturn(rest, Origin(rest, q - 1)) <==> LoneReturn(s, Origin(s, q));
    }
  }

  /** Every character but a line feed has its place in the result. */
  lemma {:induction false} HasImage(s: string, i: nat) returns (q: nat)
    requires i < |s| && s[i] != '\n'
    ensures q < |ReplaceNewlines(s)| && Origin(s, q) == i
    decreases |s|
  {
    if i == 0 {
      q := 0;
    } else if |s| > 1 && s[0] == '\r' && s[1] == '\n' {
      q := HasImage(s[2..], i - 2);
      q := q + 1;
    } else {
      q := HasImage(s[1..], i - 1);
      q := q + 1;
    }
  }

  /** The replacement of newlines leaves exactly the carriage returns that no line feed follows. */
  lemma {:induction false} LoneReturnsStay(s: string)
    ensures forall q :: 0 <= q < |ReplaceNewlines(s)| ==>
              (ReplaceNewlines(s)[q] == '\r' <==> LoneReturn(s, Origin(s, q)))
    ensures forall i :: LoneReturn(s, i) ==> exists q :: 0 <= q < |ReplaceNewlines(s)| && Origin(s, q) == i
  {
    forall q | 0 <= q < |ReplaceNewlines(s)| ensures ReplaceNewlines(s)[q] == '\r' <==> LoneReturn(s, Origin(s, q)) {
      OriginMeaning(s, q);
    }
    forall i | LoneReturn(s, i) ensures exists q :: 0 <= q < |ReplaceNewlines(s)| && Origin(s, q) == i {
      var q := HasImage(s, i);
    }
  }

  ghost predicate IsInk(s: string, i: int) {
    0 <= i < |s| && !IsSpace(s[i])
  }

  /** Trimming leaves a space exactly if it stands between two characters that are none. */
  lemma TrimLeavesInner(t: string, c: char)
    requires IsSpace(c)
    ensures c in Trim(t) <==> exists a, q, b :: a < q < b && IsInk(t, a) && IsInk(t, b) && t[q] == c
  {
    var from, to := TrimSlice(t);
    if c in Trim(t) {
      var k :| 0 <= k < |Trim(t)| && Trim(t)[k] == c;
      assert IsInk(t, from) && IsInk(t, to - 1) && t[from + k] == c;
      assert from < from + k < to - 1;
    }
    if exists a, q, b :: a < q < b && IsInk(t, a) && IsInk(t, b) && t[q] == c {
      var a, q, b :| a < q < b && IsInk(t, a) && IsInk(t, b) && t[q] == c;
      assert from <= a && b < to;
      assert t[from..to][q - from] == c;
    }
  }

  /** A carriage return that no line feed follows, between two characters that are no space. */
  ghost predicate InnerReturn(s: string, a: int, i: int, b: int) {
    a < i < b && IsInk(s, a) && IsInk(s, b) && LoneReturn(s, i)
  }

  lemma {:induction false} InkImage(s: string, a: nat) returns (q: nat)
    requires IsInk(s, a)
    ensures q < |ReplaceNewlines(s)| && Origin(s, q) == a && IsInk(ReplaceNewlines(s), q)
  {
    q := HasImage(s, a);
    OriginMeaning(s, q);
  }

  lemma ImagesAscend(s: string, q: nat, r: nat)
    requires q < |ReplaceNewlines(s)| && r < |ReplaceNewlines(s)| && Origin(s, q) < Origin(s, r)
    ensures q < r
  {
    if r < q {
      OriginAscends(s, r, q);
    }
  }

  lemma {:induction false} InnerReturnStays(s: string, a: int, i: int, b: int)
    requires InnerReturn(s, a, i, b)
    ensures '\r' in Trim(ReplaceNewlines(s))
  {
    var t := ReplaceNewlines(s);
    var a' := InkImage(s, a);
    var b' := InkImage(s, b);
    var q := HasImage(s, i);
    OriginMeaning(s, q);
    ImagesAscend(s, a', q);
    ImagesAscend(s, q, b');
    assert IsInk(t, a') && IsInk(t, b') && t[q] == '\r';
    TrimLeavesInner(t, '\r');
  }

  lemma {:induction false} ReturnWasInner(s: string) returns (a: int, i: int, b: int)
    requires '\r' in Trim(ReplaceNewlines(s))
    ensures InnerReturn(s, a, i, b)
  {
    var t := ReplaceNewlines(s);
    TrimLeavesInner(t, '\r');
    var a', q, b' :| a' < q < b' && IsInk(t, a') && IsInk(t, b') && t[q] == '\r';
    OriginMeaning(s, a');
    OriginMeaning(s, q);
    OriginMeaning(s, b');
    OriginAscends(s, a', q);
    OriginAscends(s, q, b');
    a, i, b := Origin(s, a'), Origin(s, q), Origin(s, b');
  }

  lemma {:induction false} EncodeKeepsReturns(s: string)
    ensures '\r' in Encode(s) <==> '\r' in s
  {
    if s != "" {
      EncodeKeepsReturns(s[1..]);
      EntityShape(s[0]);
      assert '\r' in Entity(s[0]) <==> s[0] == '\r';
    }
  }

  /** A cell has a carriage return exactly if the value has a lone one between two characters that are no space. */
  lemma {:induction false} CellKeepsReturns(value: string)
    ensures '\r' in EscapeTableCell(value) <==> exists a, i, b :: InnerReturn(value, a, i, b)
  {
    EscapeIsEncode(value);
    EncodeKeepsReturns(Trim(ReplaceNewlines(value)));
    if '\r' in Trim(ReplaceNewlines(value)) {
      var a, i, b := ReturnWasInner(value);
    }
    if a, i, b :| InnerReturn(value, a, i, b) {
      InnerReturnStays(value, a, i, b);
    }
  }

  lemma {:induction false} ReturnInCell()
    ensures '\r' in EscapeTableCell("a\rb")
  {
    var s := "a\rb";
    assert InnerReturn(s, 0, 1, 2);
    CellKeepsReturns(s);
  }
}
