/** Decimal text of integers: Go's strconv.FormatInt / Itoa and ParseInt / Atoi in base 10. */
module Decimal {
  const MIN_INT64: int := -0x8000_0000_0000_0000
  const MAX_INT64: int := 0x7fff_ffff_ffff_ffff

  predicate IsInt64(n: int) {
    MIN_INT64 <= n <= MAX_INT64
  }

  predicate IsDigit(c: char) {
    '0' <= c <= '9'
  }

  function DigitOf(d: int): char
    requires 0 <= d < 10
  {
    ('0' as int + d) as char
  }

  function FormatNat(n: nat): string {
    if n < 10 then [DigitOf(n)] else FormatNat(n / 10) + [DigitOf(n % 10)]
  }

  function FormatInt(n: int): string {
    if n < 0 then "-" + FormatNat(-n) else FormatNat(n)
  }

  predicate AllDigits(s: string) {
    forall i :: 0 <= i < |s| ==> IsDigit(s[i])
  }

  function DigitsValue(s: string): nat
    requires AllDigits(s)
  {
    if s == [] then 0 else DigitsValue(s[..|s| - 1]) * 10 + (s[|s| - 1] as int - '0' as int)
  }

  /** The value ParseInt returns, and whether it returns it without an error. */
  datatype Parsed = Parsed(value: int, ok: bool)

  /** strconv.ParseInt(s, 10, 64): a syntax error yields 0, a range error the nearest bound. */
  function ParseInt(s: string): Parsed {
    var signed := s != [] && (s[0] == '+' || s[0] == '-');
    var digits := if signed then s[1..] else s;
    if digits == [] || !AllDigits(digits) then
      Parsed(0, false)
    else
      var magnitude: int := DigitsValue(digits);
      var value := if signed && s[0] == '-' then -magnitude else magnitude;
      if value < MIN_INT64 then Parsed(MIN_INT64, false)
      else if value > MAX_INT64 then Parsed(MAX_INT64, false)
      else Parsed(value, true)
  }

  lemma {:induction false} FormatNatIsDigits(n: nat)
    ensures FormatNat(n) != [] && AllDigits(FormatNat(n))
    ensures DigitsValue(FormatNat(n)) == n
  {
    if n < 10 {
      assert DigitsValue([]) == 0;
      assert FormatNat(n)[..0] == [];
    } else {
      FormatNatIsDigits(n / 10);
      var front := FormatNat(n / 10);
      assert (front + [DigitOf(n % 10)])[..|front|] == front;
    }
  }

  /** Parsing undoes formatting for every 64-bit integer. */
  lemma ParseFormat(n: int)
    requires IsInt64(n)
    ensures ParseInt(FormatInt(n)) == Parsed(n, true)
  {
    FormatNatIsDigits(if n < 0 then -n else n);
    if n < 0 {
      assert FormatInt(n)[1..] == FormatNat(-n);
    } else {
      assert IsDigit(FormatInt(n)[0]);
    }
  }

  /** Different integers have different text, whatever their size. */
  lemma FormatInjective(a: int, b: int)
    requires FormatInt(a) == FormatInt(b)
    ensures a == b
  {
    FormatNatIsDigits(if a < 0 then -a else a);
    FormatNatIsDigits(if b < 0 then -b else b);
    assert a < 0 ==> FormatInt(a)[0] == '-' && FormatInt(a)[1..] == FormatNat(-a);
    assert b < 0 ==> FormatInt(b)[0] == '-' && FormatInt(b)[1..] == FormatNat(-b);
    assert a >= 0 ==> IsDigit(FormatInt(a)[0]);
    assert b >= 0 ==> IsDigit(FormatInt(b)[0]);
  }

  /** A text is a number exactly when it is an optional sign and one or more digits, within 64 bits. */
  lemma ParseReads(digits: string)
    requires digits != [] && AllDigits(digits)
    ensures ParseInt(digits) == ParseInt("+" + digits)
    ensures ParseInt(digits).ok <==> DigitsValue(digits) <= 0x7fff_ffff_ffff_ffff
    ensures ParseInt(digits).ok ==> ParseInt(digits).value == DigitsValue(digits)
    ensures ParseInt("-" + digits).ok <==> DigitsValue(digits) <= 0x8000_0000_0000_0000
    ensures ParseInt("-" + digits).ok ==> ParseInt("-" + digits).value == 0 - DigitsValue(digits)
    ensures !ParseInt(digits).ok ==> ParseInt(digits).value == 0x7fff_ffff_ffff_ffff
    ensures !ParseInt("-" + digits).ok ==> ParseInt("-" + digits).value == -0x8000_0000_0000_0000
    ensures DigitsValue("0" + digits) == DigitsValue(digits)
  {
    assert ("+" + digits)[1..] == digits && ("-" + digits)[1..] == digits;
    assert IsDigit(digits[0]);
    LeadingZero(digits);
  }

  lemma {:induction false} LeadingZero(digits: string)
    requires AllDigits(digits)
    ensures DigitsValue("0" + digits) == DigitsValue(digits)
  {
    if digits == [] {
      assert ("0" + digits)[..0] == [];
    } else {
      var front := digits[..|digits| - 1];
      assert ("0" + digits)[..|digits|] == "0" + front;
      LeadingZero(front);
    }
  }

  lemma ParseRejects(s: string)
    requires forall digits :: digits != [] && AllDigits(digits) ==> s != digits && s != "+" + digits && s != "-" + digits
    ensures ParseInt(s) == Parsed(0, false)
  {
    if s != [] {
      assert s == [s[0]] + s[1..];
    }
  }
}
