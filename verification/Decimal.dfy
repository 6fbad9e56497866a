/** Decimal numerals: what printing a number and parsing one do. */
module Decimal {
  import opened Results

  const USIZE_SIZE: nat := 0x1_0000_0000_0000_0000

  type usize = n: nat | n < USIZE_SIZE

  predicate IsDigit(c: char) {
    '0' <= c <= '9'
  }

  predicate AllDigits(s: string) {
    forall i :: 0 <= i < |s| ==> IsDigit(s[i])
  }

  /** The number that a numeral denotes. */
  function Value(s: string): nat
    requires AllDigits(s)
  {
    if s == "" then 0 else 10 * Value(s[..|s| - 1]) + (s[|s| - 1] as int - '0' as int)
  }

  /** The numeral printed for a number. */
  function ToString(n: nat): (s: string)
    ensures s != "" && AllDigits(s) && Value(s) == n
  {
    if n < 10 then
      [(n + '0' as int) as char]
    else
      var front := ToString(n / 10);
      var s := front + [(n % 10 + '0' as int) as char];
      assert s[..|s| - 1] == front;
      s
  }

  lemma NumeralsDiffer(m: nat, n: nat)
    requires m != n
    ensures ToString(m) != ToString(n)
  {
    assert Value(ToString(m)) == m && Value(ToString(n)) == n;
  }

  /** Parses an unsigned machine integer: an optional plus sign and digits, in range. */
  function ParseUsize(s: string): Option<usize> {
    var digits := if s != "" && s[0] == '+' then s[1..] else s;
    if digits != "" && AllDigits(digits) && Value(digits) < USIZE_SIZE then Some(Value(digits)) else None
  }

  /** Exactly the numerals in range are parsed, with leading zeros and one plus sign allowed. */
  lemma ParseUsizeIs(s: string, n: usize)
    ensures ParseUsize(s) == Some(n)
       <==> exists digits :: Numerates(digits, n) && (s == digits || s == "+" + digits)
  {
    if ParseUsize(s) == Some(n) {
      var digits := if s != "" && s[0] == '+' then s[1..] else s;
      assert Numerates(digits, n) && (s == digits || s == "+" + digits);
    }
    if digits :| Numerates(digits, n) && (s == digits || s == "+" + digits) {
      assert IsDigit(digits[0]);
      assert s == "+" + digits ==> s[1..] == digits;
    }
  }

  predicate Numerates(digits: string, n: nat) {
    digits != "" && AllDigits(digits) && Value(digits) == n
  }

  lemma ParsePrinted(n: usize)
    ensures ParseUsize(ToString(n)) == Some(n)
  {
    assert IsDigit(ToString(n)[0]);
  }
}
