/**
 * Decimal text of integers as JavaScript writes it (`String(n)`), the value of a
 * string of decimal digits, and `padStart(2, '0')`.
 */
module Decimal {

  predicate IsDigit(c: char) {
    '0' <= c <= '9'
  }

  predicate AllDigits(s: string) {
    forall i :: 0 <= i < |s| ==> IsDigit(s[i])
  }

  function DigitChar(d: nat): (c: char)
    requires d < 10
    ensures IsDigit(c)
  {
    ('0' as int + d) as char
  }

  function DigitValue(c: char): (d: nat)
    requires IsDigit(c)
    ensures d < 10 && DigitChar(d) == c
  {
    (c as int - '0' as int) as nat
  }

  /** `String(n)` for a non-negative integer: shortest decimal text, no leading zero. */
  function NatText(n: nat): (s: string)
    ensures 1 <= |s| && AllDigits(s)
    ensures s[0] == '0' ==> n == 0 && s == "0"
    decreases n
  {
    if n < 10 then [DigitChar(n)] else NatText(n / 10) + [DigitChar(n % 10)]
  }

  /** `String(n)` for any integer. */
  function IntText(n: int): string {
    if n < 0 then "-" + NatText(-n) else NatText(n)
  }

  /** The number a string of decimal digits denotes (leading zeros allowed). */
  function DigitsValue(s: string): nat
    requires AllDigits(s)
  {
    if s == [] then 0 else DigitsValue(s[..|s| - 1]) * 10 + DigitValue(s[|s| - 1])
  }

  /** Reading back what NatText wrote gives the number. */
  lemma {:induction false} ValueOfText(n: nat)
    ensures DigitsValue(NatText(n)) == n
    decreases n
  {
    if n >= 10 {
      var s := NatText(n);
      assert s[..|s| - 1] == NatText(n / 10);
      ValueOfText(n / 10);
    }
  }

  /** A digit string whose first digit is not 0 has a positive value. */
  lemma {:induction false} LeadingDigitPositive(s: string)
    requires 1 <= |s| && AllDigits(s) && s[0] != '0'
    ensures DigitsValue(s) > 0
    decreases |s|
  {
    if |s| > 1 {
      LeadingDigitPositive(s[..|s| - 1]);
    }
  }

  /** Writing the value of a digit string without a leading zero gives that string back. */
  lemma {:induction false} TextOfValue(s: string)
    requires 1 <= |s| && AllDigits(s) && (s[0] != '0' || |s| == 1)
    ensures NatText(DigitsValue(s)) == s
    decreases |s|
  {
    var init, last := s[..|s| - 1], DigitValue(s[|s| - 1]);
    var v := DigitsValue(s);
    assert v == DigitsValue(init) * 10 + last;
    if |s| > 1 {
      LeadingDigitPositive(init);
      TextOfValue(init);
      assert v / 10 == DigitsValue(init) && v % 10 == last;
      assert NatText(v) == init + [s[|s| - 1]];
      assert init + [s[|s| - 1]] == s;
    } else {
      assert init == [];
    }
  }

  /** `s.padStart(2, '0')` */
  function PadStart2(s: string): (r: string)
    ensures |s| < 2 ==> |r| == 2 && r[2 - |s|..] == s && (forall i :: 0 <= i < 2 - |s| ==> r[i] == '0')
    ensures |s| >= 2 ==> r == s
    decreases 2 - |s|
  {
    if |s| >= 2 then s else PadStart2("0" + s)
  }

  /** Two-digit text of a number below 100, as `String(n).padStart(2, '0')` writes it. */
  lemma TwoDigitText(n: nat)
    requires n < 100
    ensures var t := PadStart2(NatText(n));
      |t| == 2 && AllDigits(t) && DigitsValue(t) == n
  {
    if n < 10 {
      PaddedDigit(n);
    } else {
      assert NatText(n / 10) == [DigitChar(n / 10)];
      assert |NatText(n)| == 2;
      ValueOfText(n);
    }
  }

  /** A single digit is padded with one leading zero, which adds nothing to its value. */
  lemma PaddedDigit(n: nat)
    requires n < 10
    ensures var t := PadStart2(NatText(n));
      t == "0" + [DigitChar(n)] && DigitsValue(t) == n
  {
    var c := DigitChar(n);
    assert NatText(n) == [c];
    assert PadStart2([c]) == PadStart2("0" + [c]);
    var t := "0" + [c];
    assert t[..1] == ['0'];
    SingleDigitValue('0');
    assert DigitsValue(t) == DigitsValue(t[..1]) * 10 + DigitValue(c);
  }

  lemma SingleDigitValue(c: char)
    requires IsDigit(c)
    ensures DigitsValue([c]) == DigitValue(c)
  {
    assert [c][..0] == [];
  }

  /** Two digits, a leading zero allowed, are what `String(n).padStart(2, '0')` writes for their value. */
  lemma TwoDigitsRoundTrip(s: string)
    requires |s| == 2 && AllDigits(s)
    ensures DigitsValue(s) < 100 && PadStart2(NatText(DigitsValue(s))) == s
  {
    assert s[..1] == [s[0]];
    SingleDigitValue(s[0]);
    assert DigitsValue(s) == DigitValue(s[0]) * 10 + DigitValue(s[1]);
    if s[0] == '0' {
      PaddedDigit(DigitValue(s[1]));
      assert s == "0" + [s[1]];
    } else {
      TextOfValue(s);
    }
  }

  /** Four digits without a leading zero denote a number from 1000 on. */
  lemma FourDigitsValue(s: string)
    requires |s| == 4 && AllDigits(s) && s[0] != '0'
    ensures 1000 <= DigitsValue(s) < 10000
  {
    var d0, d1, d2, d3 := DigitValue(s[0]), DigitValue(s[1]), DigitValue(s[2]), DigitValue(s[3]);
    assert s[..3][..2][..1] == [s[0]] && [s[0]][..0] == [];
    assert s[..3][..2] == s[..2] && s[..3][..2][1] == s[1];
    assert DigitsValue(s[..1]) == d0;
    assert DigitsValue(s[..2]) == d0 * 10 + d1;
    assert DigitsValue(s[..3]) == (d0 * 10 + d1) * 10 + d2;
    assert DigitsValue(s) == ((d0 * 10 + d1) * 10 + d2) * 10 + d3;
  }
}
