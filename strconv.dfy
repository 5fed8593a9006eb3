/** The two pieces of Go's `strconv`/`fmt` the tool relies on: `strconv.Atoi`
    (base 10, optional sign, 64-bit `int`) and the `%d` rendering of an integer. */
module Strconv {
  import opened Wrappers

  /** The range of Go's `int` on a 64-bit platform. */
  const IntMin: int := -0x8000_0000_0000_0000
  const IntMax: int := 0x7FFF_FFFF_FFFF_FFFF

  predicate IsDigit(ch: char) {
    '0' <= ch <= '9'
  }

  /** A non-empty run of decimal digits. */
  predicate AllDigits(s: string) {
    |s| > 0 && forall i :: 0 <= i < |s| ==> IsDigit(s[i])
  }

  /** The value of a run of digits, read most significant first. */
  function DigitsValue(s: string): nat
    requires forall i :: 0 <= i < |s| ==> IsDigit(s[i])
  {
    if s == [] then 0
    else
      assert IsDigit(s[|s| - 1]);
      DigitsValue(s[..|s| - 1]) * 10 + (s[|s| - 1] as int - '0' as int)
  }

  /** The syntax `Atoi` accepts: an optional `+` or `-`, then at least one
      digit, leading zeros allowed, nothing else. */
  predicate WellFormed(s: string) {
    |s| > 0 && (AllDigits(s) || ((s[0] == '+' || s[0] == '-') && AllDigits(s[1..])))
  }

  /** The integer a well-formed string denotes, whatever its size. */
  function SignedValue(s: string): int
    requires WellFormed(s)
  {
    if s[0] == '-' then -(DigitsValue(s[1..]) as int)
    else if s[0] == '+' then DigitsValue(s[1..])
    else DigitsValue(s)
  }

  /** `strconv.Atoi`: succeeds exactly on well-formed input whose value fits the
      64-bit range, and then yields that value; anything else is an error. */
  function Atoi(s: string): (r: Option<int>)
    ensures r.Some? <==> WellFormed(s) && IntMin <= SignedValue(s) <= IntMax
    ensures r.Some? ==> r.value == SignedValue(s)
  {
    if |s| == 0 then None
    else
      var signed := s[0] == '+' || s[0] == '-';
      var body := if signed then s[1..] else s;
      if !AllDigits(body) then None
      else
        var v: int := DigitsValue(body);
        var n: int := if s[0] == '-' then -v else v;
        if n < IntMin || n > IntMax then None else Some(n)
  }

  function DigitChar(d: nat): (ch: char)
    requires d < 10
    ensures IsDigit(ch) && ch as int - '0' as int == d
  {
    (d + '0' as int) as char
  }

  /** The decimal digits of a natural number, without leading zeros. */
  function NatDecimal(n: nat): (s: string)
    ensures AllDigits(s)
    ensures DigitsValue(s) == n
    ensures |s| > 1 ==> s[0] != '0'
  {
    if n < 10 then [DigitChar(n)]
    else
      var s := NatDecimal(n / 10) + [DigitChar(n % 10)];
      assert s[..|s| - 1] == NatDecimal(n / 10);
      s
  }

  /** `fmt.Sprintf("%d", n)`. */
  function Decimal(n: int): string {
    if n < 0 then "-" + NatDecimal(-n) else NatDecimal(n)
  }

  /** A leading zero does not change the value of a run of digits. */
  lemma {:induction false} DigitsValueLeadingZero(s: string)
    requires forall i :: 0 <= i < |s| ==> IsDigit(s[i])
    ensures DigitsValue("0" + s) == DigitsValue(s)
  {
    if s == [] {
      assert ("0" + s)[..0] == [];
    } else {
      var n := |s| - 1;
      assert ("0" + s)[..n + 1] == "0" + s[..n];
      DigitsValueLeadingZero(s[..n]);
    }
  }

  /** `Atoi` ignores a leading zero and a leading `+`: `"007"`, `"+7"` and `"7"`
      all parse alike, and so do out-of-range inputs (all fail). */
  lemma AtoiPaddedDigits(s: string)
    requires AllDigits(s)
    ensures Atoi("0" + s) == Atoi(s)
    ensures Atoi("+" + s) == Atoi(s)
  {
    DigitsValueLeadingZero(s);
    assert ("+" + s)[1..] == s;
    assert AllDigits("0" + s);
  }

  /** `Atoi` reads back what `%d` writes, for every value in range. */
  lemma AtoiDecimal(n: int)
    requires IntMin <= n <= IntMax
    ensures Atoi(Decimal(n)) == Some(n)
  {
    var s := Decimal(n);
    if n < 0 {
      assert s[1..] == NatDecimal(-n);
    } else {
      assert IsDigit(s[0]);
    }
  }
}
