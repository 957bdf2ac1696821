// `Number.prototype.toString(radix)` and `Number.parseInt(text, radix)` on naturals, radix 10 and 16.
module Numerals {

  type Radix = r: nat | r == 10 || r == 16 witness 10

  predicate IsDecimal(c: char) {
    '0' <= c <= '9'
  }

  predicate IsHex(c: char) {
    '0' <= c <= '9' || 'a' <= c <= 'f' || 'A' <= c <= 'F'
  }

  predicate IsDigit(c: char, radix: Radix) {
    if radix == 10 then IsDecimal(c) else IsHex(c)
  }

  function DigitValue(c: char): (v: nat)
    requires IsHex(c)
  {
    if c <= '9' then (c - '0') as nat
    else if c <= 'F' then (c - 'A') as nat + 10
    else (c - 'a') as nat + 10
  }

  function DigitChar(d: nat): (c: char)
    requires d < 16
    ensures IsHex(c) && DigitValue(c) == d && (d < 10 ==> IsDecimal(c))
    ensures !('A' <= c <= 'F')
  {
    if d < 10 then '0' + d as char else 'a' + (d - 10) as char
  }

  predicate AllDigits(s: string, radix: Radix) {
    forall c | c in s :: IsDigit(c, radix)
  }

  /** `Number.parseInt(s, radix)` for a text of digits; leading zeros are accepted. */
  function Parse(s: string, radix: Radix): nat
    requires AllDigits(s, radix)
  {
    if s == "" then 0
    else
      assert s[|s| - 1] in s;
      Parse(s[..|s| - 1], radix) * radix + DigitValue(s[|s| - 1])
  }

  /** `n.toString(radix)` */
  function Print(n: nat, radix: Radix): (s: string)
    ensures s != "" && AllDigits(s, radix)
  {
    if n < radix then [DigitChar(n)] else Print(n / radix, radix) + [DigitChar(n % radix)]
  }

  /** Reading a printed number gives the number back. */
  lemma {:induction false} ParsePrint(n: nat, radix: Radix)
    ensures Parse(Print(n, radix), radix) == n
  {
    if n < radix {
      assert Print(n, radix)[..0] == "";
    } else {
      ParsePrint(n / radix, radix);
      var s := Print(n, radix);
      assert s[..|s| - 1] == Print(n / radix, radix);
    }
  }

  /** The digits, and what each of them is worth. */
  lemma DigitValues(c: char)
    ensures IsDecimal(c) <==> c in "0123456789"
    ensures IsHex(c) <==> c in "0123456789abcdef" || c in "ABCDEF"
    ensures forall d | 0 <= d < 16 :: "0123456789abcdef"[d] == c ==> IsHex(c) && DigitValue(c) == d && DigitChar(d) == c
    ensures forall d | 0 <= d < 6 :: "ABCDEF"[d] == c ==> IsHex(c) && DigitValue(c) == 10 + d
  {
    var lower, upper := "0123456789abcdef", "ABCDEF";
    if IsHex(c) {
      assert c == if 'A' <= c <= 'F' then upper[DigitValue(c) - 10] else lower[DigitValue(c)];
    }
  }

  /** Digits without an upper-case letter and, unless it is a lone zero, without a zero in front. */
  ghost predicate Plainest(s: string, radix: Radix) {
    && s != "" && AllDigits(s, radix)
    && (|s| > 1 ==> s[0] != '0')
    && forall c | c in s :: !('A' <= c <= 'F')
  }

  /** A printed number has no zero in front and no upper-case digit. */
  lemma {:induction false} PrintShape(n: nat, radix: Radix)
    ensures var s := Print(n, radix); Plainest(s, radix) && (s[0] == '0' <==> n == 0)
  {
    if n >= radix {
      PrintShape(n / radix, radix);
    }
  }

  lemma LastDigit(p: nat, d: nat, radix: Radix)
    requires d < radix
    ensures (p * radix + d) / radix == p && (p * radix + d) % radix == d
  {
    if radix == 10 {
      assert (p * 10 + d) / 10 == p;
    } else {
      assert (p * 16 + d) / 16 == p;
    }
  }

  lemma PrintAppend(p: nat, d: nat, radix: Radix)
    requires d < radix && p > 0
    ensures Print(p * radix + d, radix) == Print(p, radix) + [DigitChar(d)]
  {
    LastDigit(p, d, radix);
    assert p * radix >= radix;
  }

  lemma DigitBack(c: char, radix: Radix)
    requires IsDigit(c, radix) && !('A' <= c <= 'F')
    ensures DigitValue(c) < radix && DigitChar(DigitValue(c)) == c
  {
  }

  lemma ParseLast(s: string, radix: Radix)
    requires AllDigits(s, radix) && s != ""
    ensures AllDigits(s[..|s| - 1], radix) && IsDigit(s[|s| - 1], radix)
    ensures Parse(s, radix) == Parse(s[..|s| - 1], radix) * radix + DigitValue(s[|s| - 1])
  {
    assert s[|s| - 1] in s;
  }

  lemma {:induction false} ParsePositive(s: string, radix: Radix)
    requires s != "" && AllDigits(s, radix) && s[0] != '0'
    ensures Parse(s, radix) > 0
  {
    ParseLast(s, radix);
    if |s| > 1 {
      var front := s[..|s| - 1];
      assert front[0] == s[0];
      ParsePositive(front, radix);
      assert Parse(front, radix) * radix > 0;
    } else {
      assert s[..0] == "";
    }
  }

  /** And it is the only such text of this value. */
  lemma {:induction false} PrintParse(s: string, radix: Radix)
    requires Plainest(s, radix)
    ensures Print(Parse(s, radix), radix) == s
  {
    var front, last := s[..|s| - 1], s[|s| - 1];
    assert s == front + [last] && last in s && forall c | c in front :: c in s;
    ParseLast(s, radix);
    DigitBack(last, radix);
    if front == "" {
      assert Parse(front, radix) == 0;
    } else {
      assert front[0] == s[0];
      PrintParse(front, radix);
      ParsePositive(front, radix);
      PrintAppend(Parse(front, radix), DigitValue(last), radix);
    }
  }

  function Power(radix: Radix, k: nat): nat {
    if k == 0 then 1 else radix * Power(radix, k - 1)
  }

  lemma Distribute(p: int, w: int, q: int, d: int, r: int)
    ensures (p * w + q) * r + d == p * (r * w) + (q * r + d)
  {
    assert (p * w + q) * r == p * w * r + q * r;
    assert p * w * r == p * (r * w);
  }

  /** Digits count by their place. */
  lemma {:induction false} PlaceValue(a: string, b: string, radix: Radix)
    requires AllDigits(a, radix) && AllDigits(b, radix)
    ensures Parse(a + b, radix) == Parse(a, radix) * Power(radix, |b|) + Parse(b, radix)
  {
    if b == "" {
      assert a + b == a;
    } else {
      var front := b[..|b| - 1];
      ParseLast(b, radix);
      ParseLast(a + b, radix);
      assert (a + b)[..|a + b| - 1] == a + front && (a + b)[|a + b| - 1] == b[|b| - 1];
      PlaceValue(a, front, radix);
      Distribute(Parse(a, radix), Power(radix, |front|), Parse(front, radix), DigitValue(b[|b| - 1]), radix);
    }
  }

  /** One byte takes at most three decimal digits and one 16-bit group at most four hexadecimal ones. */
  lemma PrintLength(n: nat)
    ensures n < 256 ==> |Print(n, 10)| <= 3
    ensures n < 0x10000 ==> |Print(n, 16)| <= 4
  {
    assert n < 256 ==> n / 10 / 10 < 10;
    assert n / 10 / 10 < 10 ==> |Print(n / 10 / 10, 10)| == 1;
    assert n / 10 / 10 < 10 ==> |Print(n / 10, 10)| <= 2;
    assert n < 0x10000 ==> n / 16 / 16 / 16 < 16;
    assert n / 16 / 16 / 16 < 16 ==> |Print(n / 16 / 16 / 16, 16)| == 1;
    assert n / 16 / 16 / 16 < 16 ==> |Print(n / 16 / 16, 16)| <= 2;
    assert n / 16 / 16 / 16 < 16 ==> |Print(n / 16, 16)| <= 3;
  }
}
