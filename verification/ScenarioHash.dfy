/** The 32-bit hash of a scenario id and the update id derived from it. */
module ScenarioHash {
  import opened Seqs

  /** A UTF-16 code unit; a JavaScript string is a sequence of them. */
  type Unit = u: int | 0 <= u < 0x1_0000

  const TWO_31 := 0x8000_0000
  const TWO_32 := 0x1_0000_0000

  predicate IsInt32(n: int) {
    -TWO_31 <= n < TWO_31
  }

  /** ToInt32 of an integer: the representative modulo 2^32 among the signed 32-bit integers. */
  function ToInt32(n: int): (r: int)
    ensures IsInt32(r) && (n - r) % TWO_32 == 0
  {
    var m := n % TWO_32;
    if m >= TWO_31 then m - TWO_32 else m
  }

  predicate IsHighSurrogate(u: Unit) {
    0xD800 <= u < 0xDC00
  }

  predicate IsLowSurrogate(u: Unit) {
    0xDC00 <= u < 0xE000
  }

  /** How many units the code point at the head of `s` takes. */
  function PointLength(s: seq<Unit>): (n: nat)
    requires s != []
    ensures 1 <= n <= |s|
  {
    if |s| > 1 && IsHighSurrogate(s[0]) && IsLowSurrogate(s[1]) then 2 else 1
  }

  /** The first unit of each code point: what `charCodeAt(0)` gives for each step of a `for ... of` loop. */
  function LeadUnits(s: seq<Unit>): seq<Unit> {
    if s == [] then [] else [s[0]] + LeadUnits(s[PointLength(s)..])
  }

  function Power31(e: nat): nat {
    if e == 0 then 1 else 31 * Power31(e - 1)
  }

  /** The sum of codes[i] * 31^(n-1-i). */
  function Polynomial(codes: seq<Unit>): nat {
    if codes == [] then 0 else codes[0] * Power31(|codes| - 1) + Polynomial(codes[1..])
  }

  lemma {:induction false} PolynomialAppend(codes: seq<Unit>, c: Unit)
    ensures Polynomial(codes + [c]) == 31 * Polynomial(codes) + c
  {
    if codes == [] {
      assert (codes + [c])[1..] == [];
    } else {
      PolynomialAppend(codes[1..], c);
      assert (codes + [c])[1..] == codes[1..] + [c];
    }
  }

  lemma SmallMultiple(d: int, q: int)
    requires d == TWO_32 * q && -TWO_32 < d < TWO_32
    ensures d == 0
  {
  }

  lemma WrapsBy(n: int) returns (k: int)
    ensures n == ToInt32(n) + TWO_32 * k
  {
    k := (n - ToInt32(n)) / TWO_32;
  }

  lemma WrapIs(n: int, r: int, k: int)
    requires IsInt32(r) && n == r + TWO_32 * k
    ensures ToInt32(n) == r
  {
    var m := WrapsBy(n);
    SmallMultiple(ToInt32(n) - r, k - m);
  }

  /** Shifting wraps as well as the final truncation; neither changes the value modulo 2^32. */
  lemma {:induction false} StepIsCongruent(hash: int, sum: int, c: Unit)
    requires hash == ToInt32(sum)
    ensures ToInt32(ToInt32(hash * 32) - hash + c) == ToInt32(31 * sum + c)
  {
    var shifted, wrapped := ToInt32(hash * 32), ToInt32(31 * sum + c);
    var a := WrapsBy(sum);
    var b := WrapsBy(hash * 32);
    var d := WrapsBy(31 * sum + c);
    WrapIs(shifted - hash + c, wrapped, d - 31 * a - b);
  }

  function HashOf(id: seq<Unit>): int {
    ToInt32(Polynomial(LeadUnits(id)))
  }

  method HashScenarioIdToNumber(id: seq<Unit>) returns (hash: int)
    ensures hash == HashOf(id)
  {
    hash := 0;
    var at := 0;
    ghost var done: seq<Unit> := [];
    while at < |id|
      invariant at <= |id|
      invariant done + LeadUnits(id[at..]) == LeadUnits(id)
      invariant hash == ToInt32(Polynomial(done))
    {
      NextPoint(id, at, done);
      HashStep(hash, done, id[at]);
      hash := ToInt32(ToInt32(hash * 32) - hash + id[at]);
      done := done + [id[at]];
      at := at + PointLength(id[at..]);
    }
    assert done + LeadUnits([]) == done;
  }

  lemma HashStep(hash: int, done: seq<Unit>, c: Unit)
    requires hash == ToInt32(Polynomial(done))
    ensures ToInt32(ToInt32(hash * 32) - hash + c) == ToInt32(Polynomial(done + [c]))
  {
    StepIsCongruent(hash, Polynomial(done), c);
    PolynomialAppend(done, c);
  }

  lemma NextPoint(id: seq<Unit>, at: nat, done: seq<Unit>)
    requires at < |id|
    ensures done + LeadUnits(id[at..]) == (done + [id[at]]) + LeadUnits(id[at + PointLength(id[at..])..])
  {
    var rest := id[at..];
    assert rest[PointLength(rest)..] == id[at + PointLength(rest)..];
    Associate(done, [id[at]], LeadUnits(id[at + PointLength(rest)..]));
  }

  // ----- The update id

  function Abs(n: int): nat {
    if n < 0 then -n else n
  }

  /** The update id of a scenario for which the caller gave none. */
  function UpdateId(id: seq<Unit>): nat {
    Abs(HashOf(id))
  }

  predicate CongruentMod32(m: int, n: int) {
    (m - n) % TWO_32 == 0
  }

  lemma HashesAgree(m: int, n: int)
    ensures ToInt32(m) == ToInt32(n) <==> CongruentMod32(m, n)
  {
    var a, b := (m - ToInt32(m)) / TWO_32, (n - ToInt32(n)) / TWO_32;
    assert m - ToInt32(m) == TWO_32 * a && n - ToInt32(n) == TWO_32 * b;
    if ToInt32(m) == ToInt32(n) {
      assert m - n == TWO_32 * (a - b);
    } else if CongruentMod32(m, n) {
      var c := (m - n) / TWO_32;
      SmallMultiple(ToInt32(m) - ToInt32(n), c - a + b);
    }
  }

  lemma HashesOppose(m: int, n: int)
    ensures Abs(ToInt32(m)) == Abs(ToInt32(n)) && ToInt32(m) != ToInt32(n) ==> CongruentMod32(m, -n)
    ensures CongruentMod32(m, -n) ==> Abs(ToInt32(m)) == Abs(ToInt32(n))
  {
    var a, b := (m - ToInt32(m)) / TWO_32, (n - ToInt32(n)) / TWO_32;
    assert m - ToInt32(m) == TWO_32 * a && n - ToInt32(n) == TWO_32 * b;
    if ToInt32(m) == -ToInt32(n) {
      assert m + n == TWO_32 * (a + b);
    } else if CongruentMod32(m, -n) {
      var c := (m + n) / TWO_32;
      assert m + n == TWO_32 * c;
      TwoMinima(ToInt32(m), ToInt32(n), c - a - b);
    }
  }

  lemma TwoMinima(r: int, s: int, q: int)
    requires IsInt32(r) && IsInt32(s) && r + s == TWO_32 * q
    ensures Abs(r) == Abs(s)
  {
  }

  /** Two ids share an update id exactly when their polynomials are equal or opposite modulo 2^32. */
  lemma {:induction false} UpdateIdsCollide(one: seq<Unit>, other: seq<Unit>)
    ensures var m: int, n: int := Polynomial(LeadUnits(one)), Polynomial(LeadUnits(other));
            UpdateId(one) == UpdateId(other) <==> CongruentMod32(m, n) || CongruentMod32(m, -n)
  {
    var m, n := Polynomial(LeadUnits(one)), Polynomial(LeadUnits(other));
    HashesAgree(m, n);
    HashesOppose(m, n);
  }

  /**
   The update id is at most 2^31, and is 2^31, one more than a signed 32-bit integer holds, exactly at one residue.
   */
  lemma UpdateIdRange(id: seq<Unit>)
    ensures UpdateId(id) <= TWO_31
    ensures UpdateId(id) == TWO_31 <==> Polynomial(LeadUnits(id)) % TWO_32 == TWO_31
  {
  }

  /** Up to its sign, the update id is the polynomial modulo 2^32, and it is at most 2^31. */
  lemma UpdateIdMeaning(id: seq<Unit>)
    ensures var u, m := UpdateId(id), Polynomial(LeadUnits(id));
            && 0 <= u <= 0x8000_0000
            && ((m - u) % 0x1_0000_0000 == 0 || (m + u) % 0x1_0000_0000 == 0)
  {
  }

  /** The unit is the second half of a surrogate pair. */
  ghost predicate EndsPair(s: seq<Unit>, i: int)
    requires 0 <= i < |s|
  {
    0 < i && 0xD800 <= s[i - 1] <= 0xDBFF && 0xDC00 <= s[i] <= 0xDFFF
  }

  ghost function WithoutPairEnds(s: seq<Unit>, from: nat): seq<Unit>
    requires from <= |s|
    decreases |s| - from
  {
    if from == |s| then []
    else (if EndsPair(s, from) then [] else [s[from]]) + WithoutPairEnds(s, from + 1)
  }

  lemma {:induction false} LeadUnitsFrom(s: seq<Unit>, from: nat)
    requires from <= |s| && (from < |s| ==> !EndsPair(s, from))
    ensures LeadUnits(s[from..]) == WithoutPairEnds(s, from)
    decreases |s| - from
  {
    if from < |s| {
      var rest := s[from..];
      var n := PointLength(rest);
      LeadUnitsFrom(s, from + n);
      assert rest[n..] == s[from + n..];
    }
  }

  /** The units that are hashed: all but the second halves of surrogate pairs. */
  lemma {:induction false} LeadUnitsMeaning(s: seq<Unit>)
    ensures LeadUnits(s) == WithoutPairEnds(s, 0)
  {
    LeadUnitsFrom(s, 0);
    assert s[0..] == s;
  }

  lemma {:induction false} PlainUnits(s: seq<Unit>)
    requires forall i :: 0 <= i < |s| ==> !IsHighSurrogate(s[i])
    ensures LeadUnits(s) == s
  {
    if s != [] {
      PlainUnits(s[1..]);
    }
  }

  lemma OneMoreUnit(id: seq<Unit>, k: nat, sum: nat)
    requires k < |id| && Polynomial(id[..k]) == sum
    ensures Polynomial(id[..k + 1]) == 31 * sum + id[k]
  {
    assert id[..k + 1] == id[..k] + [id[k]];
    PolynomialAppend(id[..k], id[k]);
  }

  lemma SixUnits(id: seq<Unit>)
    requires |id| == 6
    requires id[0] == 71 && id[1] == 121 && id[2] == 100 && id[3] == 90 && id[4] == 71 && id[5] == 95
    ensures Polynomial(id) == TWO_31
  {
    OneMoreUnit(id, 0, 0);
    OneMoreUnit(id, 1, 71);
    OneMoreUnit(id, 2, 2322);
    OneMoreUnit(id, 3, 72082);
    OneMoreUnit(id, 4, 2234632);
    OneMoreUnit(id, 5, 69273663);
    assert id[..6] == id;
  }

  /** The update id of "GydZG_" is 2^31. */
  lemma UpdateIdLeavesInt32(id: seq<Unit>)
    requires id == [71, 121, 100, 90, 71, 95]
    ensures UpdateId(id) == TWO_31
  {
    SixUnits(id);
    PlainUnits(id);
  }

  /** Low surrogates of pairs are skipped, so ids that differ only there share their hash. */
  lemma LowSurrogatesIgnored(before: seq<Unit>, high: Unit, low: Unit, other: Unit, after: seq<Unit>)
    requires IsHighSurrogate(high) && IsLowSurrogate(low) && IsLowSurrogate(other)
    ensures HashOf(before + [high, low] + after) == HashOf(before + [high, other] + after)
  {
    SameLeadUnits(before, high, low, other, after);
  }

  lemma {:induction false} SameLeadUnits(before: seq<Unit>, high: Unit, low: Unit, other: Unit, after: seq<Unit>)
    requires IsHighSurrogate(high) && IsLowSurrogate(low) && IsLowSurrogate(other)
    ensures LeadUnits(before + [high, low] + after) == LeadUnits(before + [high, other] + after)
    decreases |before|
  {
    var one, two := before + [high, low] + after, before + [high, other] + after;
    if before == [] {
      assert one[2..] == after && two[2..] == after;
    } else {
      var n := PointLength(one);
      assert n == PointLength(two) && n <= |before|;
      assert one[n..] == before[n..] + [high, low] + after && two[n..] == before[n..] + [high, other] + after;
      SameLeadUnits(before[n..], high, low, other, after);
    }
  }
}
