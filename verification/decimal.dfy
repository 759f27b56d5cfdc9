/**
 * Decimal text as the Java library reads and writes it: `Integer.parseInt`
 * (optional sign, decimal digits, 32-bit range), `Integer.toString` for
 * non-negative values, and the zero padding of `String.format("%0Nd", n)`.
 */
module Decimal {
  import opened Wrappers

  const INT_MIN: int := -0x8000_0000
  const INT_MAX: int := 0x7FFF_FFFF

  /** Values of Java's `int`. */
  predicate IsInt32(n: int) {
    INT_MIN <= n <= INT_MAX
  }

  /** Java's wrap-around of an exact result into an `int`. */
  function Wrap32(n: int): (r: int)
    ensures IsInt32(r)
    ensures (r - n) % 0x1_0000_0000 == 0
    ensures IsInt32(n) ==> r == n
  {
    var m := n % 0x1_0000_0000;
    if m > INT_MAX then m - 0x1_0000_0000 else m
  }

  predicate IsDigit(ch: char) {
    '0' <= ch <= '9'
  }

  predicate AllDigits(s: string) {
    forall i :: 0 <= i < |s| ==> IsDigit(s[i])
  }

  function DigitValue(ch: char): nat
    requires IsDigit(ch)
  {
    ch as int - '0' as int
  }

  function DigitChar(d: nat): (ch: char)
    requires d < 10
    ensures IsDigit(ch) && DigitValue(ch) == d
  {
    ('0' as int + d) as char
  }

  /** The shortest decimal spelling of `n` (no leading zeros), as `Integer.toString` writes it. */
  function Digits(n: nat): (s: string)
    ensures 0 < |s| && AllDigits(s)
    ensures n < 10 <==> |s| == 1
    decreases n
  {
    if n < 10 then [DigitChar(n)] else Digits(n / 10) + [DigitChar(n % 10)]
  }

  /** The number a string of decimal digits denotes; leading zeros are allowed. */
  function Value(s: string): nat
    requires AllDigits(s)
  {
    if |s| == 0 then 0 else 10 * Value(s[..|s| - 1]) + DigitValue(s[|s| - 1])
  }

  /** `Value` reads back what `Digits` writes. */
  lemma {:induction false} ValueOfDigits(n: nat)
    ensures Value(Digits(n)) == n
    decreases n
  {
    if n >= 10 {
      var s := Digits(n);
      assert s[..|s| - 1] == Digits(n / 10);
      ValueOfDigits(n / 10);
    }
  }

  function Zeros(k: nat): (s: string)
    ensures |s| == k && AllDigits(s)
    ensures forall i :: 0 <= i < k ==> s[i] == '0'
  {
    seq(k, _ => '0')
  }

  /** Leading zeros do not change the value of a digit string. */
  lemma {:induction false} ValueIgnoresLeadingZeros(k: nat, s: string)
    requires AllDigits(s)
    ensures AllDigits(Zeros(k) + s)
    ensures Value(Zeros(k) + s) == Value(s)
    decreases |s|
  {
    var t := Zeros(k) + s;
    if |s| == 0 {
      assert t == Zeros(k);
      ZerosHaveNoValue(k);
    } else {
      assert t[..|t| - 1] == Zeros(k) + s[..|s| - 1];
      ValueIgnoresLeadingZeros(k, s[..|s| - 1]);
    }
  }

  lemma {:induction false} ZerosHaveNoValue(k: nat)
    ensures Value(Zeros(k)) == 0
  {
    if k > 0 {
      assert Zeros(k)[..k - 1] == Zeros(k - 1);
      ZerosHaveNoValue(k - 1);
    }
  }

  /** An optional leading '-' or '+', every other character a digit, and at least one digit. */
  predicate SignedDigits(s: string) {
    && (exists j :: 0 <= j < |s| && IsDigit(s[j]))
    && forall i :: 0 <= i < |s| ==> IsDigit(s[i]) || (i == 0 && (s[i] == '-' || s[i] == '+'))
  }

  /**
   * `Integer.parseInt(s)`: an optional '-' or '+' followed by at least one
   * digit, and a value that fits in an `int`; anything else throws.
   */
  function ParseInt(s: string): (r: Option<int>)
    ensures r.Some? ==> IsInt32(r.value) && 0 < |s|
    ensures 0 < |s| && AllDigits(s) ==> (r.Some? <==> Value(s) <= INT_MAX)
    ensures 0 < |s| && AllDigits(s) && r.Some? ==> r.value == Value(s)
  {
    if |s| == 0 then None
    else
      var signed := s[0] == '-' || s[0] == '+';
      var body := if signed then s[1..] else s;
      if |body| == 0 || !AllDigits(body) then None
      else
        var v: int := if s[0] == '-' then 0 - Value(body) else Value(body);
        if IsInt32(v) then Some(v) else None
  }

  /** `parseInt` rejects every text that is not an optional sign followed by digits. */
  lemma ParseIntShape(s: string)
    ensures ParseInt(s).Some? ==> SignedDigits(s)
  {
    if ParseInt(s).Some? {
      var body := if s[0] == '-' || s[0] == '+' then s[1..] else s;
      assert s[|s| - 1] == body[|body| - 1];
      forall i | 1 <= i < |s|
        ensures IsDigit(s[i])
      {
        assert s[i] == body[i - (|s| - |body|)];
      }
    }
  }

  /**
   * A '+' before a digit string reads as the string alone; a '-' negates its
   * value, and is rejected when the negation falls below -2^31.
   */
  lemma ParseSign(body: string)
    requires 0 < |body| && AllDigits(body)
    ensures ParseInt("+" + body) == ParseInt(body)
    ensures ParseInt("-" + body) == if Value(body) <= -INT_MIN then Some(0 - Value(body)) else None
  {
    var plus := "+" + body;
    assert plus[0] == '+' && plus[1..] == body;
    assert ParseInt(plus) == ParseInt(body);
    var minus := "-" + body;
    assert minus[0] == '-' && minus[1..] == body;
  }

  /** The width of `n` written without padding, sign included. */
  function NaturalWidth(n: int): nat {
    if n >= 0 then |Digits(n)| else 1 + |Digits(-n)|
  }

  /**
   * `String.format("%0<width>d", n)`: the decimal spelling of `n`, with zeros
   * inserted after the sign until it is `width` characters wide.
   */
  function ZeroPad(n: int, width: nat): (s: string)
    ensures |s| == if width > NaturalWidth(n) then width else NaturalWidth(n)
    ensures n >= 0 <==> AllDigits(s)
    ensures forall i :: 0 <= i < |s| ==> IsDigit(s[i]) || (i == 0 && s[i] == '-')
  {
    if n >= 0 then
      var d := Digits(n);
      Zeros(if width > |d| then width - |d| else 0) + d
    else
      var d := Digits(-n);
      var s := "-" + Zeros(if width > |d| + 1 then width - |d| - 1 else 0) + d;
      assert !IsDigit(s[0]);
      s
  }

  /** Every padded `int` parses back to itself: padding loses nothing. */
  lemma ParseZeroPad(n: int, width: nat)
    requires IsInt32(n)
    ensures ParseInt(ZeroPad(n, width)) == Some(n)
  {
    if n >= 0 {
      ParsePaddedDigits(n, if width > |Digits(n)| then width - |Digits(n)| else 0);
    } else {
      ParseNegativePaddedDigits(-n, if width > |Digits(-n)| + 1 then width - |Digits(-n)| - 1 else 0);
    }
  }

  lemma ParsePaddedDigits(n: nat, k: nat)
    requires n <= INT_MAX
    ensures ParseInt(Zeros(k) + Digits(n)) == Some(n)
  {
    var d := Digits(n);
    var s := Zeros(k) + d;
    ValueIgnoresLeadingZeros(k, d);
    ValueOfDigits(n);
    assert IsDigit(s[0]);
  }

  lemma ParseNegativePaddedDigits(n: nat, k: nat)
    requires 0 < n <= -INT_MIN
    ensures ParseInt("-" + Zeros(k) + Digits(n)) == Some(0 - n)
  {
    var d := Digits(n);
    var body := Zeros(k) + d;
    assert 0 < |body| && AllDigits(body) && Value(body) == n by {
      ValueIgnoresLeadingZeros(k, d);
      ValueOfDigits(n);
    }
    ParseMinus(body);
    assert "-" + Zeros(k) + d == "-" + body;
  }

  /** A '-' before a non-empty digit string negates its value, when the result fits. */
  lemma ParseMinus(body: string)
    requires 0 < |body| && AllDigits(body)
    requires Value(body) <= -INT_MIN
    ensures ParseInt("-" + body) == Some(0 - Value(body))
  {
    assert ("-" + body)[1..] == body;
  }

  /** `Integer.parseInt` reads back the plain decimal spelling of every non-negative `int`. */
  lemma ParseDigits(n: nat)
    requires n <= INT_MAX
    ensures ParseInt(Digits(n)) == Some(n)
  {
    ValueOfDigits(n);
    assert Digits(n)[0] != '-' && Digits(n)[0] != '+';
  }
}
