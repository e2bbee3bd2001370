/** `strconv.Atoi` and `%d` for 64-bit integers. */
module Decimal {
  import opened Options

  type Int64 = x: int | -0x8000_0000_0000_0000 <= x <= 0x7FFF_FFFF_FFFF_FFFF

  predicate IsDigit(c: char) {
    '0' <= c <= '9'
  }

  predicate AllDigits(s: string) {
    forall i :: 0 <= i < |s| ==> IsDigit(s[i])
  }

  function Value(s: string): nat
    requires AllDigits(s)
  {
    if s == "" then 0 else Value(s[..|s| - 1]) * 10 + (s[|s| - 1] as int - '0' as int)
  }

  function Atoi(s: string): Option<Int64> {
    var signed := s != "" && (s[0] == '-' || s[0] == '+');
    var digits := if signed then s[1..] else s;
    if digits == "" || !AllDigits(digits) then None
    else
      var n: int := if s[0] == '-' then -(Value(digits) as int) else Value(digits);
      if -0x8000_0000_0000_0000 <= n <= 0x7FFF_FFFF_FFFF_FFFF then Some(n) else None
  }

  function Digits(n: nat): (s: string)
    ensures s != "" && AllDigits(s)
  {
    var last := ['0' + (n % 10) as char];
    if n < 10 then last else Digits(n / 10) + last
  }

  function Itoa(n: int): string {
    if n < 0 then "-" + Digits(-n) else Digits(n)
  }

  lemma {:induction false} ValueOfDigits(n: nat)
    ensures Value(Digits(n)) == n
  {
    if n >= 10 {
      ValueOfDigits(n / 10);
      assert Digits(n)[..|Digits(n)| - 1] == Digits(n / 10);
    } else {
      assert Digits(n)[..0] == "";
    }
  }

  lemma AtoiUnsigned(n: nat)
    requires n <= 0x7FFF_FFFF_FFFF_FFFF
    ensures Atoi(Digits(n)) == Some(n)
  {
    ValueOfDigits(n);
    assert IsDigit(Digits(n)[0]);
  }

  lemma AtoiNegative(n: nat)
    requires n <= 0x8000_0000_0000_0000
    ensures Atoi("-" + Digits(n)) == Some(-(n as int))
  {
    ValueOfDigits(n);
    var s := "-" + Digits(n);
    assert s[0] == '-' && s[1..] == Digits(n);
  }

  /** Printing and reading back. */
  lemma AtoiOfItoa(n: Int64)
    ensures Atoi(Itoa(n)) == Some(n)
  {
    if n < 0 {
      AtoiNegative(-(n as int));
    } else {
      AtoiUnsigned(n);
    }
  }

  function Power(n: nat): nat {
    if n == 0 then 1 else 10 * Power(n - 1)
  }

  lemma PlaceValueStep(first: nat, power: nat, value: nat, last: nat)
    ensures (first * power + value) * 10 + last == first * (10 * power) + (value * 10 + last)
  {
  }

  /** The first digit counts for the power of ten of the digits after it. */
  lemma {:induction false} PlaceValue(first: char, rest: string)
    requires IsDigit(first) && AllDigits(rest)
    ensures Value([first] + rest) == (first as int - '0' as int) * Power(|rest|) + Value(rest)
  {
    var s := [first] + rest;
    if rest == "" {
      assert s[..0] == "";
    } else {
      var front := rest[..|rest| - 1];
      assert s[..|s| - 1] == [first] + front;
      PlaceValue(first, front);
      PlaceValueStep((first as int - '0' as int), Power(|front|), Value(front), rest[|rest| - 1] as int - '0' as int);
    }
  }

  /** A sign or none, and at least one digit and nothing else. */
  ghost predicate IsSigned(s: string, sign: string, digits: string) {
    s == sign + digits && (sign == "" || sign == "+" || sign == "-") && digits != "" && AllDigits(digits)
  }

  /** The number that the sign and the digits denote. */
  function Denoted(sign: string, digits: string): int
    requires AllDigits(digits)
  {
    if sign == "-" then -(Value(digits) as int) else Value(digits)
  }

  /** Exactly the signed digits of a 64-bit number are read, and as that number. */
  lemma AtoiReads(s: string, n: int)
    ensures Atoi(s) == Some(n) <==>
            (-0x8000_0000_0000_0000 <= n <= 0x7FFF_FFFF_FFFF_FFFF
             && exists sign, digits :: IsSigned(s, sign, digits) && n == Denoted(sign, digits))
  {
    if s != "" && (s[0] == '-' || s[0] == '+') {
      assert s == s[..1] + s[1..];
      assert IsSigned(s, s[..1], s[1..]) <==> s[1..] != "" && AllDigits(s[1..]);
      SignedOnce(s);
    } else {
      assert s == "" + s;
      assert IsSigned(s, "", s) <==> s != "" && AllDigits(s);
      UnsignedOnce(s);
    }
  }

  lemma SignedOnce(s: string)
    requires s != "" && (s[0] == '-' || s[0] == '+')
    ensures forall sign, digits :: IsSigned(s, sign, digits) ==> sign == s[..1] && digits == s[1..]
  {
    forall sign, digits | IsSigned(s, sign, digits) ensures sign == s[..1] && digits == s[1..] {
      assert (sign + digits)[0] == s[0];
    }
  }

  lemma UnsignedOnce(s: string)
    requires s == "" || (s[0] != '-' && s[0] != '+')
    ensures forall sign, digits :: IsSigned(s, sign, digits) ==> sign == "" && digits == s
  {
    forall sign, digits | IsSigned(s, sign, digits) ensures sign == "" && digits == s {
      assert sign + digits == s;
    }
  }
}
