/** Decimal text: what Number.parseInt reads and what toString and padStart write. */
module Decimal {
  predicate IsDigit(c: char) {
    '0' <= c <= '9'
  }

  predicate AllDigits(s: string) {
    |s| > 0 && forall i :: 0 <= i < |s| ==> IsDigit(s[i])
  }

  function DigitValue(c: char): (d: nat)
    requires IsDigit(c)
  {
    c as int - '0' as int
  }

  function DigitChar(d: nat): (c: char)
    requires d < 10
    ensures IsDigit(c) && DigitValue(c) == d
  {
    ('0' as int + d) as char
  }

  function ParseInt(s: string): nat
    requires forall i :: 0 <= i < |s| ==> IsDigit(s[i])
  {
    if s == "" then 0 else 10 * ParseInt(s[..|s| - 1]) + DigitValue(s[|s| - 1])
  }

  function ToText(n: nat): (s: string)
    ensures AllDigits(s)
  {
    if n < 10 then [DigitChar(n)] else ToText(n / 10) + [DigitChar(n % 10)]
  }

  function Pow10(n: nat): nat {
    if n == 0 then 1 else 10 * Pow10(n - 1)
  }

  lemma {:induction false} ParseToText(n: nat)
    ensures ParseInt(ToText(n)) == n
  {
    var s := ToText(n);
    if n >= 10 {
      ParseToText(n / 10);
      assert s[..|s| - 1] == ToText(n / 10);
    } else {
      assert s[..0] == "";
      assert ParseInt("") == 0;
    }
  }

  lemma {:induction false} TextLength(n: nat, width: nat)
    requires n < Pow10(width) && width > 0
    ensures |ToText(n)| <= width
  {
    if n >= 10 {
      assert Pow10(0) == 1;
      TextLength(n / 10, width - 1);
    }
  }

  /** The digits are '0' to '9', code points 48 to 57, each worth its distance from '0'. */
  lemma DigitIs(c: char)
    ensures IsDigit(c) <==> 48 <= c as int <= 57
    ensures IsDigit(c) ==> DigitValue(c) == c as int - 48
  {
  }

  /** Six digits, most significant first. */
  predicate SixDigitsOf(s: string, n: int) {
    && |s| == 6 && (forall i :: 0 <= i < 6 ==> 48 <= s[i] as int <= 57)
    && n == ((((((s[0] as int - 48) * 10 + (s[1] as int - 48)) * 10 + (s[2] as int - 48)) * 10
               + (s[3] as int - 48)) * 10 + (s[4] as int - 48)) * 10 + (s[5] as int - 48))
  }

  lemma ReadsSixDigits(s: string)
    requires |s| == 6 && AllDigits(s)
    ensures SixDigitsOf(s, ParseInt(s))
  {
    assert s[..5][..4] == s[..4] && s[..4][..3] == s[..3] && s[..3][..2] == s[..2] && s[..2][..1] == s[..1];
    assert s[..1][..0] == "";
    assert ParseInt(s[..1]) == DigitValue(s[0]);
    assert ParseInt(s[..2]) == 10 * ParseInt(s[..1]) + DigitValue(s[1]);
    assert ParseInt(s[..3]) == 10 * ParseInt(s[..2]) + DigitValue(s[2]);
    assert ParseInt(s[..4]) == 10 * ParseInt(s[..3]) + DigitValue(s[3]);
    assert ParseInt(s[..5]) == 10 * ParseInt(s[..4]) + DigitValue(s[4]);
  }

  function PadStart(s: string, width: nat): string
    decreases width - |s|
  {
    if |s| >= width then s else PadStart("0" + s, width)
  }

  lemma {:induction false} ParseLeadingZero(s: string)
    requires AllDigits(s)
    ensures AllDigits("0" + s) && ParseInt("0" + s) == ParseInt(s)
  {
    var z := "0" + s;
    assert z[..|z| - 1] == "0" + s[..|s| - 1];
    if |s| > 1 {
      ParseLeadingZero(s[..|s| - 1]);
    } else {
      assert z[..1] == "0" && "0"[..0] == "" && s[..0] == "";
      assert ParseInt("0") == 0;
      assert ParseInt(s) == DigitValue(s[0]);
    }
  }

  /** Padding with zeros gives the width and keeps the value. */
  lemma {:induction false} PadKeepsValue(s: string, width: nat)
    requires AllDigits(s) && |s| <= width
    ensures AllDigits(PadStart(s, width)) && |PadStart(s, width)| == width
    ensures ParseInt(PadStart(s, width)) == ParseInt(s)
    decreases width - |s|
  {
    if |s| < width {
      ParseLeadingZero(s);
      PadKeepsValue("0" + s, width);
    }
  }
}
