// Natural numbers as decimal text: strconv.Itoa and the digits read by strconv.Atoi.
module Decimal {
  predicate IsDigit(c: char) {
    '0' <= c <= '9'
  }

  function DigitChar(d: nat): (c: char)
    requires d < 10
    ensures IsDigit(c)
  {
    "0123456789"[d]
  }

  function DigitValue(c: char): (d: nat)
    requires IsDigit(c)
    ensures d < 10
  {
    c as int - '0' as int
  }

  lemma DigitInverts(d: nat)
    requires d < 10
    ensures DigitValue(DigitChar(d)) == d
  {
  }

  predicate AllDigits(s: string) {
    forall c :: c in s ==> IsDigit(c)
  }

  /** The digits of a number. */
  function Itoa(n: nat): (s: string)
    ensures s != [] && AllDigits(s)
  {
    if n < 10 then [DigitChar(n)] else Itoa(n / 10) + [DigitChar(n % 10)]
  }

  /** strconv.Itoa, and fmt's %d. */
  function Format(i: int): string {
    if i < 0 then "-" + Itoa(-i) else Itoa(i)
  }

  function Value(s: string): nat
    requires AllDigits(s)
  {
    if s == [] then 0 else 10 * Value(s[..|s| - 1]) + DigitValue(s[|s| - 1])
  }

  lemma {:induction false} ValueOfItoa(n: nat)
    ensures Value(Itoa(n)) == n
  {
    if n < 10 {
      assert Itoa(n)[..0] == [];
      DigitInverts(n);
    } else {
      ValueOfItoa(n / 10);
      assert Itoa(n)[..|Itoa(n)| - 1] == Itoa(n / 10);
      DigitInverts(n % 10);
    }
  }

  /** Different numbers have different texts. */
  lemma ItoaInjective(a: nat, b: nat)
    requires Itoa(a) == Itoa(b)
    ensures a == b
  {
    ValueOfItoa(a);
    ValueOfItoa(b);
  }

  function Pow10(k: nat): nat {
    if k == 0 then 1 else 10 * Pow10(k - 1)
  }

  /** A number below 10^k takes at most k digits. */
  lemma {:induction false} ItoaShort(n: nat, k: nat)
    requires 0 < k && n < Pow10(k)
    ensures |Itoa(n)| <= k
  {
    if n >= 10 {
      assert k > 1 by { assert Pow10(1) == 10 * Pow10(0); }
      ItoaShort(n / 10, k - 1);
    }
  }

  /** A 64-bit number, signed or not, takes at most 21 characters. */
  lemma FormatShort(i: int)
    requires -0x1_0000_0000_0000_0000 < i < 0x1_0000_0000_0000_0000
    ensures |Format(i)| <= 21
  {
    assert Pow10(4) == 10 * Pow10(3) == 100 * Pow10(2) == 1_000 * Pow10(1) == 10_000 * Pow10(0);
    assert Pow10(8) == 10_000 * Pow10(4) by { assert Pow10(6) == 100 * Pow10(4); }
    assert Pow10(12) == 10_000 * Pow10(8) by { assert Pow10(10) == 100 * Pow10(8); }
    assert Pow10(16) == 10_000 * Pow10(12) by { assert Pow10(14) == 100 * Pow10(12); }
    assert Pow10(20) == 10_000 * Pow10(16) by { assert Pow10(18) == 100 * Pow10(16); }
    ItoaShort(if i < 0 then -i else i, 20);
  }

  /** No leading zeros. */
  lemma {:induction false} ItoaLeads(n: nat)
    ensures n > 0 ==> Itoa(n)[0] != '0'
    ensures n == 0 ==> Itoa(n) == "0"
  {
    if n >= 10 {
      ItoaLeads(n / 10);
    }
  }
}
