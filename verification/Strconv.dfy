/** Decimal text: the parts of Go's `strconv` that the modelled code relies on. */
module Strconv {
  import opened Wrappers

  const MAX_INT64 := 0x7fff_ffff_ffff_ffff
  const MIN_INT64 := -0x8000_0000_0000_0000

  predicate IsDigit(c: char) {
    '0' <= c <= '9'
  }

  function DigitValue(c: char): nat
    requires IsDigit(c)
  {
    c as int - '0' as int
  }

  function DigitChar(d: nat): (c: char)
    requires d < 10
    ensures IsDigit(c) && DigitValue(c) == d
  {
    ('0' as int + d) as char
  }

  /** The number a string of decimal digits denotes (0 for the empty string), or None. */
  function ParseDigits(s: string): Option<nat> {
    if s == "" then Some(0)
    else
      var front, last := ParseDigits(s[..|s| - 1]), s[|s| - 1];
      if front.Some? && IsDigit(last) then Some(front.value * 10 + DigitValue(last)) else None
  }

  /** Decimal digits of a natural number, without leading zeros. */
  function Digits(n: nat): (s: string)
    ensures s != "" && IsDigit(s[0])
    ensures ParseDigits(s) == Some(n)
  {
    if n < 10 then
      var s := [DigitChar(n)];
      assert s[..0] == "";
      s
    else
      var front := Digits(n / 10);
      var s := front + [DigitChar(n % 10)];
      assert s[..|s| - 1] == front;
      s
  }

  /** `strconv.Itoa`. */
  function Itoa(n: int): string {
    if n < 0 then "-" + Digits(-n) else Digits(n)
  }

  /** Decimal notation: the last digit after those of the tenth part, and a minus sign in front of negative numbers. */
  lemma DecimalNotation(n: int)
    requires n >= 0
    ensures n < 10 ==> Itoa(n) == ["0123456789"[n]]
    ensures n >= 10 ==> Itoa(n) == Itoa(n / 10) + ["0123456789"[n % 10]]
    ensures n > 0 ==> Itoa(-n) == "-" + Itoa(n)
  {
    TenDigits(n % 10);
  }

  lemma TenDigits(d: nat)
    requires d < 10
    ensures DigitChar(d) == "0123456789"[d]
  {
  }

  /** `strconv.Atoi` on a 64-bit platform: an optional sign, then at least one digit, within int64. */
  function Atoi(s: string): Option<int> {
    var signed := s != "" && (s[0] == '-' || s[0] == '+');
    var digits := if signed then s[1..] else s;
    var n := ParseDigits(digits);
    if digits == "" || n.None? then None
    else
      var m: int := if signed && s[0] == '-' then 0 - n.value else n.value;
      if MIN_INT64 <= m <= MAX_INT64 then Some(m) else None
  }

  /** Reading back what `Itoa` wrote, for every int64. */
  lemma AtoiOfItoa(n: int)
    requires MIN_INT64 <= n <= MAX_INT64
    ensures Atoi(Itoa(n)) == Some(n)
  {
    if n < 0 {
      assert Itoa(n)[1..] == Digits(-n);
    }
  }

  /** Beyond int64 it refuses. */
  lemma AtoiOfItoaIff(n: int)
    ensures Atoi(Itoa(n)) == if -0x8000_0000_0000_0000 <= n <= 0x7fff_ffff_ffff_ffff then Some(n) else None
  {
    if n < 0 {
      assert Itoa(n)[1..] == Digits(-n);
    }
  }

  lemma ItoaInjective(m: int, n: int)
    requires Itoa(m) == Itoa(n)
    ensures m == n
  {
    if m < 0 {
      assert Itoa(m)[1..] == Digits(-m);
      assert Itoa(n)[1..] == Digits(-n);
    }
  }

  lemma {:induction false} DigitsAreDigits(n: nat)
    ensures forall c <- Digits(n) :: IsDigit(c)
  {
    if n >= 10 {
      DigitsAreDigits(n / 10);
    }
  }

  lemma ItoaCharacters(n: int)
    ensures forall c <- Itoa(n) :: c == '-' || IsDigit(c)
  {
    DigitsAreDigits(if n < 0 then -n else n);
  }
}
