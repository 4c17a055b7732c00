/** Decimal text of JavaScript numbers: `toString()` on integers, `padStart`, and the
    decimal reading that undoes them. */
module NumberText {

  predicate IsDigit(c: char) {
    '0' <= c <= '9'
  }

  predicate AllDigits(s: string) {
    forall i :: 0 <= i < |s| ==> IsDigit(s[i])
  }

  function DigitChar(d: int): (c: char)
    requires 0 <= d < 10
    ensures IsDigit(c)
  {
    (48 + d) as char
  }

  function DigitValue(c: char): (d: int)
    requires IsDigit(c)
    ensures 0 <= d < 10
    ensures DigitChar(d) == c
  {
    c as int - 48
  }

  /** `n.toString()` for a non-negative integer: decimal digits, no leading zero. */
  function NatToString(n: nat): (s: string)
    ensures |s| >= 1
    ensures AllDigits(s)
    ensures |s| > 1 ==> s[0] != '0'
    decreases n
  {
    if n < 10 then [DigitChar(n)] else NatToString(n / 10) + [DigitChar(n % 10)]
  }

  /** `n.toString()` for any integer: a minus sign before the digits of a negative one. */
  function IntToString(n: int): (s: string)
    ensures n >= 0 ==> s == NatToString(n)
    ensures n < 0 ==> |s| >= 2 && s[0] == '-' && s[1..] == NatToString(-n)
  {
    if n < 0 then "-" + NatToString(-n) else NatToString(n)
  }

  /** The value of a string of decimal digits; the inverse of the printing above. */
  function ParseDigits(s: string): (n: nat)
    requires AllDigits(s)
    decreases |s|
  {
    if |s| == 0 then 0 else ParseDigits(s[..|s| - 1]) * 10 + DigitValue(s[|s| - 1])
  }

  lemma {:induction false} ParseNatToString(n: nat)
    ensures ParseDigits(NatToString(n)) == n
    decreases n
  {
    var s := NatToString(n);
    if n >= 10 {
      ParseNatToString(n / 10);
      assert s[..|s| - 1] == NatToString(n / 10);
    }
  }

  /** Leading zeros do not change the value read. */
  lemma {:induction false} ParseLeadingZero(s: string)
    requires AllDigits(s)
    ensures ParseDigits("0" + s) == ParseDigits(s)
    decreases |s|
  {
    if |s| > 0 {
      var t := "0" + s;
      assert t[..|t| - 1] == "0" + s[..|s| - 1];
      ParseLeadingZero(s[..|s| - 1]);
    }
  }

  function Pow10(k: nat): (p: nat)
    ensures p >= 1
  {
    if k == 0 then 1 else 10 * Pow10(k - 1)
  }

  /** The decimal form of `n` has at most `k` digits exactly when `n < 10^k`. */
  lemma {:induction false} DigitCount(n: nat, k: nat)
    requires k >= 1
    ensures |NatToString(n)| <= k <==> n < Pow10(k)
    decreases n
  {
    if n >= 10 {
      if k == 1 {
        assert Pow10(1) == 10;
      } else {
        DigitCount(n / 10, k - 1);
        assert n < Pow10(k) <==> n / 10 < Pow10(k - 1);
      }
    } else {
      assert Pow10(k) >= 10 by { PowAtLeastTen(k); }
    }
  }

  lemma {:induction false} PowAtLeastTen(k: nat)
    requires k >= 1
    ensures Pow10(k) >= 10
  {
    if k > 1 {
      PowAtLeastTen(k - 1);
    }
  }

  /** `s.padStart(targetLength, fill)` with a one-character fill string. */
  function PadStart(s: string, targetLength: int, fill: char): (r: string)
    ensures |r| == if targetLength > |s| then targetLength else |s|
    ensures r[|r| - |s|..] == s
    ensures forall i :: 0 <= i < |r| - |s| ==> r[i] == fill
  {
    if targetLength <= |s| then s
    else
      var padding := seq(targetLength - |s|, _ => fill);
      assert (padding + s)[|padding|..] == s;
      padding + s
  }

  /** `n.toString().padStart(2, '0')`, the two-digit rendering of a countdown field. A
      single digit gains one leading zero; larger values print as they are; the rendering
      is `max(2, digits)` long and reads back as the value. */
  function TwoDigits(n: int): (r: string)
    ensures 0 <= n < 10 ==> r == ['0', DigitChar(n)]
    ensures n >= 10 ==> r == NatToString(n)
    ensures n >= 0 ==> |r| == if |NatToString(n)| < 2 then 2 else |NatToString(n)|
    ensures n >= 0 ==> AllDigits(r) && ParseDigits(r) == n
  {
    TwoDigitsFacts(n);
    PadStart(IntToString(n), 2, '0')
  }

  /** The facts behind `TwoDigits`, about the padded decimal text itself. */
  lemma TwoDigitsFacts(n: int)
    ensures var r := PadStart(IntToString(n), 2, '0');
      && (0 <= n < 10 ==> r == ['0', DigitChar(n)])
      && (n >= 10 ==> r == NatToString(n))
      && (n >= 0 ==> AllDigits(r) && ParseDigits(r) == n)
  {
    if n >= 0 {
      ParseNatToString(n);
      if n < 10 {
        var s := NatToString(n);
        assert s == [DigitChar(n)];
        assert PadStart(s, 2, '0') == PadStart("0" + s, 2, '0');
        assert PadStart("0" + s, 2, '0') == "0" + s;
        ParseLeadingZero(s);
      } else {
        DigitCount(n, 1);
        assert Pow10(1) == 10;
      }
    }
  }
}
