/** String(n) for integers. */
module Decimal {
  function Digit(d: nat): char
    requires d < 10
  {
    ('0' as int + d) as char
  }

  predicate IsDigit(c: char) { '0' <= c <= '9' }

  function NatText(n: nat): (r: string)
    ensures r != "" && forall i | 0 <= i < |r| :: IsDigit(r[i])
  {
    if n < 10 then [Digit(n)] else NatText(n / 10) + [Digit(n % 10)]
  }

  function DigitValue(c: char): nat
    requires IsDigit(c)
  {
    c as int - '0' as int
  }

  /** The number a run of decimal digits stands for. */
  function Value(s: string): nat
    requires forall i | 0 <= i < |s| :: IsDigit(s[i])
  {
    if s == "" then 0 else 10 * Value(s[..|s| - 1]) + DigitValue(s[|s| - 1])
  }

  lemma {:induction false} ValueOfText(n: nat)
    ensures Value(NatText(n)) == n
  {
    var s := NatText(n);
    if n < 10 {
      assert s[..0] == "";
    } else {
      assert s[..|s| - 1] == NatText(n / 10);
      ValueOfText(n / 10);
    }
  }

  function IntText(n: int): (r: string)
    ensures r != "" && forall i | 0 <= i < |r| :: IsDigit(r[i]) || r[i] == '-'
  {
    if n < 0 then "-" + NatText(-n) else NatText(n)
  }

  /** The integer that a text of digits, with a minus sign or without, stands for. */
  function IntValue(s: string): int
    requires s != "" && forall i | 0 < i < |s| :: IsDigit(s[i])
    requires IsDigit(s[0]) || s[0] == '-'
  {
    if s[0] == '-' then -(Value(s[1..]) as int) else Value(s)
  }

  /** A number is written so that it is read as itself, and without leading zeros. */
  lemma {:induction false} IntTextReads(n: int)
    ensures var s := IntText(n);
            && (forall i | 0 < i < |s| :: IsDigit(s[i])) && (IsDigit(s[0]) || s[0] == '-') && IntValue(s) == n
            && (n > 0 ==> s[0] != '0') && (n < 0 ==> s[1] != '0')
  {
    var m := if n < 0 then -n else n;
    ValueOfText(m);
    if m > 0 { NoLeadingZero(m); }
    if n < 0 { assert IntText(n)[1..] == NatText(m); } else { assert IsDigit(NatText(m)[0]); }
  }

  lemma {:induction false} NoLeadingZero(n: nat)
    requires n > 0
    ensures NatText(n)[0] != '0'
  {
    if n >= 10 { NoLeadingZero(n / 10); }
  }

  lemma IntTextInjective(a: int, b: int)
    requires IntText(a) == IntText(b)
    ensures a == b
  {
    IntTextReads(a);
    IntTextReads(b);
  }
}
