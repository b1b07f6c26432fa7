/** The string operations of the ECMAScript library that the scripts use, over characters. */
module Text {

  /** The white space and line terminators that `\s` and `trim` know. */
  predicate IsSpace(c: char) {
    || c == ' ' || '\t' <= c <= '\r' || c == '\U{00A0}' || c == '\U{1680}' || '\U{2000}' <= c <= '\U{200A}'
    || c == '\U{2028}' || c == '\U{2029}' || c == '\U{202F}' || c == '\U{205F}' || c == '\U{3000}' || c == '\U{FEFF}'
  }

  /** They are these code points. */
  lemma SpaceCodes(c: char)
    ensures IsSpace(c) <==>
              || c as int in {9, 10, 11, 12, 13, 32, 160, 5760, 8232, 8233, 8239, 8287, 12288, 65279}
              || 8192 <= c as int <= 8202
  {
  }

  function TrimStart(s: string): string {
    if s == "" || !IsSpace(s[0]) then s else TrimStart(s[1..])
  }

  function TrimEnd(s: string): string {
    if s == "" || !IsSpace(s[|s| - 1]) then s else TrimEnd(s[..|s| - 1])
  }

  function Trim(s: string): string {
    TrimEnd(TrimStart(s))
  }

  predicate IsTrimmed(s: string) {
    s != "" ==> !IsSpace(s[0]) && !IsSpace(s[|s| - 1])
  }

  /** `lines.join(separator)` */
  function Join(lines: seq<string>, separator: string): string {
    if lines == [] then "" else if |lines| == 1 then lines[0] else lines[0] + separator + Join(lines[1..], separator)
  }

  lemma {:induction false} TrimStartSlice(s: string) returns (k: nat)
    ensures k <= |s| && TrimStart(s) == s[k..]
    ensures TrimStart(s) != "" ==> !IsSpace(TrimStart(s)[0])
    ensures forall i :: 0 <= i < k ==> IsSpace(s[i])
  {
    if s == "" || !IsSpace(s[0]) {
      k := 0;
    } else {
      var j := TrimStartSlice(s[1..]);
      k := j + 1;
      forall i | 0 <= i < k ensures IsSpace(s[i]) {
        assert i > 0 ==> s[i] == s[1..][i - 1];
      }
    }
  }

  lemma {:induction false} TrimEndSlice(s: string) returns (k: nat)
    ensures k <= |s| && TrimEnd(s) == s[..k]
    ensures TrimEnd(s) != "" ==> !IsSpace(TrimEnd(s)[k - 1])
    ensures forall i :: k <= i < |s| ==> IsSpace(s[i])
  {
    if s == "" || !IsSpace(s[|s| - 1]) {
      k := |s|;
    } else {
      k := TrimEndSlice(s[..|s| - 1]);
    }
  }

  /** Trimming keeps a stretch of the text that neither begins nor ends with space, and drops only space around it. */
  lemma TrimSlice(s: string) returns (from: nat, to: nat)
    ensures from <= to <= |s| && Trim(s) == s[from..to] && IsTrimmed(Trim(s))
    ensures forall i :: 0 <= i < from || to <= i < |s| ==> IsSpace(s[i])
  {
    from := TrimStartSlice(s);
    var k := TrimEndSlice(TrimStart(s));
    to := from + k;
    forall i | to <= i < |s| ensures IsSpace(s[i]) {
      assert s[from..][i - from] == s[i];
    }
    if Trim(s) != "" {
      assert Trim(s)[0] == TrimStart(s)[0];
    }
  }

  lemma TrimOfTrimmed(s: string)
    requires IsTrimmed(s)
    ensures Trim(s) == s
  {
  }
}
