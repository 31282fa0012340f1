/** Decimal numerals: printing and reading. */
module Decimal {

  predicate IsDigit(c: char) {
    '0' <= c <= '9'
  }

  predicate AllDigits(s: string) {
    forall i | 0 <= i < |s| :: IsDigit(s[i])
  }

  function DigitValue(c: char): (v: nat)
    requires IsDigit(c)
    ensures v < 10
  {
    (c - '0') as nat
  }

  function DigitChar(v: nat): (c: char)
    requires v < 10
    ensures IsDigit(c) && DigitValue(c) == v
  {
    '0' + v as char
  }

  /** The value of a numeral; no sign, leading zeros allowed. */
  function ReadNat(s: string): nat
    requires AllDigits(s)
  {
    if s == [] then 0 else 10 * ReadNat(s[..|s| - 1]) + DigitValue(s[|s| - 1])
  }

  /** The numeral of a number, without leading zeros. */
  function PrintNat(n: nat): (s: string)
    ensures s != [] && AllDigits(s)
    ensures s == "0" || s[0] != '0'
  {
    if n < 10 then [DigitChar(n)] else PrintNat(n / 10) + [DigitChar(n % 10)]
  }

  lemma {:induction false} ReadPrint(n: nat)
    ensures ReadNat(PrintNat(n)) == n
  {
    var s := PrintNat(n);
    if n < 10 {
      assert s[..0] == [];
    } else {
      ReadPrint(n / 10);
      assert s[..|s| - 1] == PrintNat(n / 10);
    }
  }

  /** A numeral without superfluous zeros is the print of its value. */
  lemma {:induction false} PrintRead(s: string)
    requires AllDigits(s) && s != [] && (s == "0" || s[0] != '0')
    ensures PrintNat(ReadNat(s)) == s
    ensures s[0] != '0' ==> ReadNat(s) > 0
  {
    var front, d := s[..|s| - 1], s[|s| - 1];
    if |s| > 1 {
      PrintRead(front);
      PrintSnoc(front, d);
      assert s == front + [d];
    } else {
      assert ReadNat(front) == 0;
    }
  }

  /** One more digit behind a positive number. */
  lemma PrintSnoc(front: string, d: char)
    requires AllDigits(front) && IsDigit(d) && ReadNat(front) > 0
    ensures AllDigits(front + [d]) && ReadNat(front + [d]) >= 10
    ensures PrintNat(ReadNat(front + [d])) == PrintNat(ReadNat(front)) + [d]
  {
    var all := front + [d];
    assert all[..|all| - 1] == front && all[|all| - 1] == d;
    ReadSnoc(all);
    PrintStep(ReadNat(front), DigitValue(d));
  }

  lemma PrintStep(n: nat, v: nat)
    requires n > 0 && v < 10
    ensures PrintNat(10 * n + v) == PrintNat(n) + [DigitChar(v)]
  {
    assert (10 * n + v) / 10 == n && (10 * n + v) % 10 == v;
  }

  lemma ReadSnoc(s: string)
    requires s != [] && AllDigits(s)
    ensures ReadNat(s) == 10 * ReadNat(s[..|s| - 1]) + DigitValue(s[|s| - 1])
  {
  }
}
