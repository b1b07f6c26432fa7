/** The key of the command cache: the timeout in decimal, a colon, the command. */
module CacheKey {

  function Digit(d: nat): char
    requires d < 10
  {
    ('0' as int + d) as char
  }

  function DecimalNat(n: nat): string {
    if n < 10 then [Digit(n)] else DecimalNat(n / 10) + [Digit(n % 10)]
  }

  function Decimal(n: int): string {
    if n < 0 then "-" + DecimalNat(-n) else DecimalNat(n)
  }

  function Key(timeoutMs: int, command: string): string {
    Decimal(timeoutMs) + ":" + command
  }

  ghost predicate IsDigit(c: char) { '0' <= c <= '9' }

  lemma {:induction false} DecimalNatDigits(n: nat)
    ensures DecimalNat(n) != [] && forall c :: c in DecimalNat(n) ==> IsDigit(c)
  {
    if n >= 10 {
      DecimalNatDigits(n / 10);
    }
  }

  /** The number that decimal digits stand for. */
  ghost function ValueOf(digits: string): nat
    requires forall c :: c in digits ==> IsDigit(c)
  {
    if digits == "" then 0
    else
      var last := digits[|digits| - 1];
      assert IsDigit(last);
      10 * ValueOf(digits[..|digits| - 1]) + (last as int - '0' as int)
  }

  lemma {:induction false} DecimalNatValue(n: nat)
    ensures forall c :: c in DecimalNat(n) ==> IsDigit(c)
    ensures ValueOf(DecimalNat(n)) == n && DecimalNat(n) != [] && (n > 0 ==> DecimalNat(n)[0] != '0')
  {
    DecimalNatDigits(n);
    if n >= 10 {
      DecimalNatValue(n / 10);
      assert DecimalNat(n)[..|DecimalNat(n)| - 1] == DecimalNat(n / 10);
    } else {
      assert [Digit(n)][..0] == "";
    }
  }

  /**
   A number is written as the digits that stand for it, without leading zeros, and after a minus if it is below zero.
   */
  lemma DecimalMeaning(n: int)
    ensures exists digits: string ::
              && digits != "" && (forall c :: c in digits ==> IsDigit(c)) && (n != 0 ==> digits[0] != '0')
              && ValueOf(digits) == (if n < 0 then -n else n)
              && Decimal(n) == (if n < 0 then "-" else "") + digits
  {
    DecimalNatValue(if n < 0 then -n else n);
  }

  lemma {:induction false} DecimalNatInjective(m: nat, n: nat)
    requires DecimalNat(m) == DecimalNat(n)
    ensures m == n
  {
    DecimalNatDigits(m / 10);
    DecimalNatDigits(n / 10);
    var s := DecimalNat(m);
    assert s[|s| - 1] == Digit(m % 10) == Digit(n % 10);
    if m >= 10 && n >= 10 {
      assert s[..|s| - 1] == DecimalNat(m / 10) == DecimalNat(n / 10);
      DecimalNatInjective(m / 10, n / 10);
    } else {
      assert m < 10 <==> |s| == 1;
    }
  }

  lemma DecimalInjective(m: int, n: int)
    requires Decimal(m) == Decimal(n)
    ensures m == n
  {
    DecimalNatDigits(if m < 0 then -m else m);
    DecimalNatDigits(if n < 0 then -n else n);
    var s := Decimal(m);
    assert IsDigit(s[0]) <==> m >= 0;
    assert IsDigit(s[0]) <==> n >= 0;
    if m < 0 {
      assert s[1..] == DecimalNat(-m) == DecimalNat(-n);
      DecimalNatInjective(-m, -n);
    } else {
      DecimalNatInjective(m, n);
    }
  }

  lemma FirstColonSplits(a: string, x: string, b: string, y: string)
    requires ':' !in a && ':' !in b && a + ":" + x == b + ":" + y
    ensures a == b && x == y
  {
    var s := a + ":" + x;
    assert s[|a|] == ':' && s[|b|] == ':';
    assert forall i :: 0 <= i < |a| ==> s[i] == a[i];
    assert forall i :: 0 <= i < |b| ==> s[i] == b[i];
    assert |a| == |b|;
    assert a == s[..|a|] && b == s[..|b|];
    assert x == s[|a| + 1..] && y == s[|b| + 1..];
  }

  /** Distinct (timeout, command) pairs never share a cache entry, whatever colons a command contains. */
  lemma KeyInjective(t: int, c: string, t': int, c': string)
    requires Key(t, c) == Key(t', c')
    ensures t == t' && c == c'
  {
    DecimalNatDigits(if t < 0 then -t else t);
    DecimalNatDigits(if t' < 0 then -t' else t');
    FirstColonSplits(Decimal(t), c, Decimal(t'), c');
    DecimalInjective(t, t');
  }
}
