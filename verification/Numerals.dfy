/**
 Four-digit hexadecimal numbers as the generator writes them, and numbers as JSON and C read them.
 */
module Numerals {
  import opened Text

  /** Lower-case digit. */
  function Digit(n: nat): char
    requires n < 16
  {
    if n < 10 then ('0' as int + n) as char else ('a' as int + n - 10) as char
  }

  function Hex4(n: nat): string
    requires n < 0x1_0000
  {
    [Digit(n / 0x1000), Digit(n / 0x100 % 0x10), Digit(n / 0x10 % 0x10), Digit(n % 0x10)]
  }

  /** Digits of either case. */
  function DigitValue(c: char): (v: Option<nat>)
    ensures v.Some? ==> v.value < 16
  {
    if '0' <= c <= '9' then Some(c as int - '0' as int)
    else if 'a' <= c <= 'f' then Some(c as int - 'a' as int + 10)
    else if 'A' <= c <= 'F' then Some(c as int - 'A' as int + 10)
    else None
  }

  /** The value of a digit of the given base. */
  function DigitIn(c: char, base: nat): (v: Option<nat>)
    ensures v.Some? ==> v.value < base
  {
    match DigitValue(c)
    case Some(v) => if v < base then Some(v) else None
    case None => None
  }

  /** The number a string of digits denotes, most significant digit first. */
  function Number(s: string, base: nat): Option<nat> {
    if s == "" then Some(0)
    else match (Number(s[..|s| - 1], base), DigitIn(s[|s| - 1], base)) {
      case (Some(hi), Some(lo)) => Some(base * hi + lo)
      case _ => None
    }
  }

  /** How many digits stand at the head of `s`, up to a limit. */
  function DigitRun(s: string, base: nat, limit: nat): (n: nat)
    ensures n <= |s| && n <= limit
  {
    if s == "" || limit == 0 || DigitIn(s[0], base).None? then 0
    else 1 + DigitRun(s[1..], base, limit - 1)
  }

  lemma DigitRoundTrip(n: nat)
    requires n < 16
    ensures DigitValue(Digit(n)) == Some(n)
    ensures '0' <= Digit(n) <= '9' || 'a' <= Digit(n) <= 'f'
  {}

  lemma Number4(s: string)
    requires |s| == 4
    ensures Number(s, 16) ==
            match (DigitValue(s[0]), DigitValue(s[1]), DigitValue(s[2]), DigitValue(s[3])) {
              case (Some(a), Some(b), Some(c), Some(d)) => Some(0x1000 * a + 0x100 * b + 0x10 * c + d)
              case _ => None
            }
  {
    var s3, s2, s1 := s[..3], s[..2], s[..1];
    assert s3[..2] == s2 && s2[..1] == s1 && s1[..0] == "";
    assert Number(s1, 16) == match DigitValue(s[0]) { case Some(a) => Some(a) case None => None };
    assert Number(s2, 16) ==
           match (Number(s1, 16), DigitValue(s[1])) { case (Some(h), Some(l)) => Some(16 * h + l) case _ => None };
    assert Number(s3, 16) ==
           match (Number(s2, 16), DigitValue(s[2])) { case (Some(h), Some(l)) => Some(16 * h + l) case _ => None };
  }

  lemma Digits4(n: nat)
    ensures n == 0x1000 * (n / 0x1000) + 0x100 * (n / 0x100 % 0x10) + 0x10 * (n / 0x10 % 0x10) + n % 0x10
  {
    var a := n / 0x10;
    var b := n / 0x100;
    var c := n / 0x1000;
    assert n == 0x10 * a + n % 0x10;
    assert a / 0x10 == b && a == 0x10 * b + a % 0x10;
    assert b / 0x10 == c && b == 0x10 * c + b % 0x10;
  }

  lemma Hex4Digits(n: nat)
    requires n < 0x1_0000
    ensures forall i :: 0 <= i < 4 ==> '0' <= Hex4(n)[i] <= '9' || 'a' <= Hex4(n)[i] <= 'f'
  {
    DigitRoundTrip(n / 0x1000);
    DigitRoundTrip(n / 0x100 % 0x10);
    DigitRoundTrip(n / 0x10 % 0x10);
    DigitRoundTrip(n % 0x10);
  }

  /** Reading undoes writing. */
  lemma RoundTrip(n: nat)
    requires n < 0x1_0000
    ensures Number(Hex4(n), 16) == Some(n)
  {
    DigitRoundTrip(n / 0x1000);
    DigitRoundTrip(n / 0x100 % 0x10);
    DigitRoundTrip(n / 0x10 % 0x10);
    DigitRoundTrip(n % 0x10);
    Number4(Hex4(n));
    Digits4(n);
  }
}
