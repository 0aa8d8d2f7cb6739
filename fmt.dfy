/** The C string routines the firmware relies on: `strncpy` into a fixed
    field, and `printf`'s `%u` rendering of an unsigned number.  C strings are
    modelled as the characters before their terminating NUL. */
module Fmt {
  import opened Esp

  /** What `strncpy(dst, src, n)` leaves readable in a zero-terminated field
      whose last byte is never written: at most the first `n` characters. */
  function Truncate(s: string, n: nat): (r: string)
    ensures |r| == Min(|s|, n)
    ensures r == s[..|r|]
    ensures |s| <= n ==> r == s
  {
    if |s| <= n then s else s[..n]
  }

  function DigitChar(d: nat): (c: char)
    requires d < 10
  {
    "0123456789"[d]
  }

  predicate IsDigit(c: char) {
    '0' <= c <= '9'
  }

  function DigitValue(c: char): (d: nat)
    requires IsDigit(c)
    ensures d < 10
  {
    (c as int) - ('0' as int)
  }

  /** `%u`: the decimal digits of `n`, most significant first, no leading zero. */
  function Decimal(n: nat): (r: string)
    ensures 1 <= |r|
    ensures forall i :: 0 <= i < |r| ==> IsDigit(r[i])
    ensures |r| > 1 ==> r[0] != '0'
  {
    if n < 10 then [DigitChar(n)] else Decimal(n / 10) + [DigitChar(n % 10)]
  }

  /** Reads a string of decimal digits back as a number (the partner of `Decimal`). */
  function ParseDecimal(s: string): nat
    requires forall i :: 0 <= i < |s| ==> IsDigit(s[i])
  {
    if s == [] then 0 else ParseDecimal(s[..|s| - 1]) * 10 + DigitValue(s[|s| - 1])
  }

  lemma DigitRoundTrip(d: nat)
    requires d < 10
    ensures IsDigit(DigitChar(d)) && DigitValue(DigitChar(d)) == d
  {
    assert "0123456789"[d] as int == '0' as int + d;
  }

  lemma {:induction false} DecimalRoundTrip(n: nat)
    ensures ParseDecimal(Decimal(n)) == n
  {
    if n < 10 {
      DigitRoundTrip(n);
      assert Decimal(n)[..0] == [];
    } else {
      var q, d := n / 10, n % 10;
      var init := Decimal(q);
      var r := init + [DigitChar(d)];
      assert Decimal(n) == r;
      DecimalRoundTrip(q);
      DigitRoundTrip(d);
      assert r[..|r| - 1] == init;
      assert ParseDecimal(r) == q * 10 + d;
    }
  }

  /** Two numbers render alike only if they are equal, so keys such as
      `uid_<i>` never collide. */
  lemma DecimalInjective(m: nat, n: nat)
    requires Decimal(m) == Decimal(n)
    ensures m == n
  {
    DecimalRoundTrip(m);
    DecimalRoundTrip(n);
  }
}
