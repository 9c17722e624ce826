/** Decimal printing and parsing of 64-bit signed integers. */
module Decimal {
  import opened Text

  function DigitByte(d: int): byte
    requires 0 <= d < 10
  {
    (48 + d) as byte
  }

  function Digits(n: nat): Bytes {
    if n < 10 then [DigitByte(n)] else Digits(n / 10) + [DigitByte(n % 10)]
  }

  /** `i64::to_string`. */
  function Printed(i: int): Bytes {
    if i < 0 then [MINUS] + Digits(-i) else Digits(i)
  }

  predicate AllDigits(s: Bytes) {
    forall i :: 0 <= i < |s| ==> IsDigit(s[i])
  }

  function Magnitude(s: Bytes): nat
    requires AllDigits(s)
  {
    if s == [] then 0 else 10 * Magnitude(s[..|s| - 1]) + (s[|s| - 1] - ZERO) as int
  }

  /** `str::parse::<i64>`: one optional sign, at least one digit, nothing else, in range. */
  function Parsed(s: Bytes): Option<i64> {
    var signed := s != [] && (s[0] == MINUS || s[0] == PLUS);
    var digits := if signed then s[1..] else s;
    if digits == [] || !AllDigits(digits) then None
    else
      var magnitude: int := Magnitude(digits);
      var value := if signed && s[0] == MINUS then -magnitude else magnitude;
      if I64_MIN <= value <= I64_MAX then Some(value) else None
  }

  lemma {:induction false} DigitsReadBack(n: nat)
    ensures Digits(n) != [] && AllDigits(Digits(n)) && Magnitude(Digits(n)) == n
  {
    if n >= 10 {
      DigitsReadBack(n / 10);
      assert Digits(n)[..|Digits(n)| - 1] == Digits(n / 10);
    }
  }

  /** Printing then parsing is the identity on every 64-bit integer. */
  lemma ParsePrinted(i: i64)
    ensures Parsed(Printed(i)) == Some(i)
  {
    var n: nat := if i < 0 then -(i as int) else i;
    DigitsReadBack(n);
    if i < 0 {
      assert Printed(i)[1..] == Digits(n);
    }
  }

  lemma PrintedInjective(i: i64, j: i64)
    requires Printed(i) == Printed(j)
    ensures i == j
  {
    ParsePrinted(i);
    ParsePrinted(j);
  }

  lemma DigitsInjective(m: nat, n: nat)
    requires Digits(m) == Digits(n)
    ensures m == n
  {
    DigitsReadBack(m);
    DigitsReadBack(n);
  }

  /** Printed integers use digits and `-` only. */
  lemma PrintedAlphabet(i: int)
    ensures Printed(i) != []
    ensures forall k :: 0 <= k < |Printed(i)| ==> IsDigit(Printed(i)[k]) || Printed(i)[k] == MINUS
  {
    DigitsReadBack(if i < 0 then -i else i);
  }

  // ---------- What the texts are ----------

  /** No superfluous zero leads. */
  lemma {:induction false} DigitsAreShort(n: nat)
    ensures Digits(n) != [] && AllDigits(Digits(n)) && (Digits(n)[0] == ZERO ==> n == 0 && Digits(n) == [ZERO])
  {
    DigitsReadBack(n);
    if n >= 10 {
      DigitsAreShort(n / 10);
    }
  }

  function Power(k: nat): nat {
    if k == 0 then 1 else 10 * Power(k - 1)
  }

  /** Each digit counts for its place. */
  lemma {:induction false} MagnitudeIs(d: byte, s: Bytes)
    requires IsDigit(d) && AllDigits(s)
    ensures AllDigits([d] + s) && Magnitude([d] + s) == (d as int - 48) * Power(|s|) + Magnitude(s)
  {
    var whole := [d] + s;
    if s == [] {
      assert whole[..0] == [];
    } else {
      var front, last := s[..|s| - 1], s[|s| - 1];
      MagnitudeIs(d, front);
      assert whole[..|whole| - 1] == [d] + front;
      TenTimes(d as int - 48, Power(|front|), Magnitude(front));
    }
  }

  lemma TenTimes(d: int, p: int, m: int)
    ensures 10 * (d * p + m) == d * (10 * p) + 10 * m
  {
    assert d * (10 * p) == 10 * (d * p);
  }

  /** The parts of an integer as text. */
  ghost predicate IsInteger(s: Bytes, sign: Bytes, digits: Bytes, i: int) {
    && s == sign + digits && (sign == [] || sign == Ascii("-") || sign == Ascii("+"))
    && digits != [] && AllDigits(digits)
    && var n: int := Magnitude(digits);
       i == if sign == Ascii("-") then -n else n
  }

  /** Exactly the integers in range parse: an optional sign, then digits, at least one. */
  lemma ParsedIff(s: Bytes, i: i64)
    ensures Parsed(s) == Some(i) <==> exists sign, digits :: IsInteger(s, sign, digits, i)
  {
    assert Ascii("-") == [MINUS] && Ascii("+") == [PLUS];
    var signed := s != [] && (s[0] == MINUS || s[0] == PLUS);
    if Parsed(s) == Some(i) {
      var sign: Bytes, digits := if signed then [s[0]] else [], if signed then s[1..] else s;
      assert s == sign + digits;
      assert IsInteger(s, sign, digits, i);
    }
    if sign, digits :| IsInteger(s, sign, digits, i) {
      assert s[|sign|..] == digits;
      if sign == [] {
        assert s[0] == digits[0];
      }
    }
  }
}
