/** Positional notation: what `BigInt(text)` reads and `toString(10)` writes. */
module Digits {
  import opened Prelude

  function Pow(b: nat, k: nat): (r: nat)
    ensures b > 0 ==> r > 0
  {
    if k == 0 then 1 else b * Pow(b, k - 1)
  }

  function DigitChar(d: nat): char
    requires d < 16
  {
    if d < 10 then '0' + d as char else 'a' + (d - 10) as char
  }

  /** The value of a digit in either case, or 16 for any other character. */
  function DigitValue(c: char): (d: nat)
    ensures d <= 16
  {
    if '0' <= c <= '9' then (c - '0') as int
    else if 'a' <= c <= 'f' then (c - 'a') as int + 10
    else if 'A' <= c <= 'F' then (c - 'A') as int + 10
    else 16
  }

  predicate AllDigits(s: string, base: nat) {
    forall i :: 0 <= i < |s| ==> DigitValue(s[i]) < base
  }

  /** The number that a digit string denotes. */
  function Value(s: string, base: nat): nat {
    if s == [] then 0 else Value(s[..|s| - 1], base) * base + DigitValue(s[|s| - 1])
  }

  /** `toString(10)` of a non-negative big integer. */
  function ToDecimal(n: nat): string {
    if n < 10 then [DigitChar(n)] else ToDecimal(n / 10) + [DigitChar(n % 10)]
  }

  function ToDecimalInt(n: int): string {
    if n < 0 then "-" + ToDecimal(-n) else ToDecimal(n)
  }

  /** `BigInt(text)` for decimal text with an optional sign and for hexadecimal
      text; `None` is the thrown SyntaxError. */
  function ParseBigInt(s: string): (r: Option<int>) {
    if |s| > 2 && (s[..2] == "0x" || s[..2] == "0X") then
      if AllDigits(s[2..], 16) then Some(Value(s[2..], 16)) else None
    else if |s| > 1 && (s[0] == '-' || s[0] == '+') then
      if !AllDigits(s[1..], 10) then None
      else if s[0] == '-' then Some(0 - Value(s[1..], 10) as int)
      else Some(Value(s[1..], 10))
    else if |s| > 0 && AllDigits(s, 10) then Some(Value(s, 10))
    else None
  }

  /** What `BigInt` takes: decimal digits with or without a sign, and `0x` before digits of
      either case. */
  lemma ParsesDigits(w: string)
    requires w != ""
    ensures AllDigits(w, 10) ==> ParseBigInt(w) == Some(Value(w, 10))
    ensures AllDigits(w, 10) ==> ParseBigInt("+" + w) == Some(Value(w, 10))
    ensures AllDigits(w, 10) ==> ParseBigInt("-" + w) == Some(-(Value(w, 10) as int))
    ensures AllDigits(w, 16) ==> ParseBigInt("0x" + w) == ParseBigInt("0X" + w) == Some(Value(w, 16))
  {
    ParsesSigned("+", w);
    ParsesSigned("-", w);
    ParsesHex("0x", w);
    ParsesHex("0X", w);
    hide Value, AllDigits;
    if AllDigits(w, 10) {
      NotHex(w);
    }
  }

  lemma ParsesSigned(sign: string, w: string)
    requires w != "" && sign in {"+", "-"}
    ensures AllDigits(w, 10) ==>
              ParseBigInt(sign + w) == Some(if sign == "-" then -(Value(w, 10) as int) else Value(w, 10))
  {
    hide Value, AllDigits;
    var s := sign + w;
    assert s[0] == sign[0] && s[1..] == w && s[..2][0] == sign[0];
  }

  lemma ParsesHex(mark: string, w: string)
    requires w != "" && mark in {"0x", "0X"}
    ensures AllDigits(w, 16) ==> ParseBigInt(mark + w) == Some(Value(w, 16))
  {
    hide Value, AllDigits;
    assert (mark + w)[..2] == mark && (mark + w)[2..] == w;
  }

  lemma NotHex(w: string)
    requires w != "" && AllDigits(w, 10)
    ensures |w| >= 2 ==> w[..2] != "0x" && w[..2] != "0X"
    ensures w[0] != '-' && w[0] != '+'
  {
    assert DigitValue(w[0]) < 10;
    if |w| >= 2 {
      assert DigitValue(w[1]) < 10 && w[..2][1] == w[1];
    }
  }

  /** And it refuses everything else. */
  lemma ParsesNothingElse(s: string)
    requires ParseBigInt(s).Some?
    ensures || (s != "" && AllDigits(s, 10))
            || (|s| > 1 && s[0] in {'-', '+'} && AllDigits(s[1..], 10))
            || (|s| > 2 && s[..2] in {"0x", "0X"} && AllDigits(s[2..], 16))
  {
  }

  /** The digits of both bases, in either case. */
  lemma DigitValues(d: nat, c: char)
    ensures d < 16 ==> DigitValue("0123456789abcdef"[d]) == d && DigitValue("0123456789ABCDEF"[d]) == d
    ensures DigitValue(c) < 16 ==>
              "0123456789abcdef"[DigitValue(c)] == c || "0123456789ABCDEF"[DigitValue(c)] == c
  {
    var lower, upper := "0123456789abcdef", "0123456789ABCDEF";
    assert forall i: nat :: i < 10 ==> lower[i] == upper[i] && lower[i] as int == '0' as int + i;
    assert forall i: nat :: 10 <= i < 16 ==> lower[i] as int == 'a' as int + (i - 10);
    assert forall i: nat :: 10 <= i < 16 ==> upper[i] as int == 'A' as int + (i - 10);
  }

  lemma {:induction false} ValueConcat(a: string, b: string, base: nat)
    ensures Value(a + b, base) == Value(a, base) * Pow(base, |b|) + Value(b, base)
    decreases |b|
  {
    if b == [] {
      assert a + b == a;
    } else {
      var c := b[..|b| - 1];
      assert (a + b)[..|a + b| - 1] == a + c;
      ValueConcat(a, c, base);
      Distribute(Value(a, base), Pow(base, |c|), Value(c, base), base);
    }
  }

  lemma Distribute(x: int, p: int, y: int, base: int)
    ensures (x * p + y) * base == x * (base * p) + y * base
  {
  }

  lemma ValueSnoc(s: string, c: char)
    requires DigitValue(c) < 10
    ensures Value(s + [c], 10) == Value(s, 10) * 10 + DigitValue(c)
    ensures AllDigits(s, 10) ==> AllDigits(s + [c], 10)
  {
    assert (s + [c])[..|s + [c]| - 1] == s;
  }

  /** Printing then reading a number gives it back. */
  lemma {:induction false} ToDecimalReads(n: nat)
    ensures |ToDecimal(n)| > 0 && AllDigits(ToDecimal(n), 10) && Value(ToDecimal(n), 10) == n
    decreases n
  {
    if n < 10 {
      ValueSnoc([], DigitChar(n));
    } else {
      ToDecimalReads(n / 10);
      ValueSnoc(ToDecimal(n / 10), DigitChar(n % 10));
    }
  }

  /** Every decimal digit is in its place. */
  lemma {:induction false} DecimalDigits(n: nat, k: nat)
    requires k < |ToDecimal(n)|
    ensures ToDecimal(n)[|ToDecimal(n)| - 1 - k] == "0123456789"[n / Pow(10, k) % 10]
    decreases k
  {
    hide ToDecimal, Pow;
    LastDigit(n);
    if k > 0 {
      PowStep(k);
      DivDiv(n, Pow(10, k - 1));
      DecimalDigits(n / 10, k - 1);
    } else {
      PowNone();
    }
  }

  lemma LastDigit(n: nat)
    ensures ToDecimal(n) == (if n < 10 then "" else ToDecimal(n / 10)) + ["0123456789"[n % 10]]
  {
    DigitsOfChars();
    hide DigitChar;
  }

  lemma PowNone()
    ensures Pow(10, 0) == 1
  {
  }

  lemma PowStep(k: nat)
    requires k > 0
    ensures Pow(10, k) == 10 * Pow(10, k - 1)
  {
  }

  /** No zero stands in front of another digit. */
  lemma {:induction false} NoLeadingZero(n: nat)
    ensures |ToDecimal(n)| > 1 ==> ToDecimal(n)[0] != '0'
    decreases n
  {
    if n >= 10 {
      NoLeadingZero(n / 10);
    }
  }

  lemma DigitsOfChars()
    ensures forall d: nat :: d < 16 ==> DigitChar(d) == "0123456789abcdef"[d]
    ensures forall d: nat :: d < 10 ==> "0123456789"[d] == "0123456789abcdef"[d]
  {
    var s := "0123456789abcdef";
    assert forall d: nat :: d < 10 ==> s[d] as int == '0' as int + d;
    assert forall d: nat :: 10 <= d < 16 ==> s[d] as int == 'a' as int + (d - 10);
  }

  lemma ParsePrinted(n: nat)
    ensures ParseBigInt(ToDecimal(n)) == Some(n)
  {
    ToDecimalReads(n);
    var s := ToDecimal(n);
    assert DigitValue(s[0]) < 10;
    if |s| > 2 {
      assert DigitValue(s[1]) < 10;
      assert s[..2][1] == s[1];
    }
  }

  lemma {:induction false} DecimalLength(n: nat, k: nat)
    requires k > 0 && n < Pow(10, k) && (k == 1 || Pow(10, k - 1) <= n)
    ensures |ToDecimal(n)| == k
    decreases k
  {
    if k > 1 {
      assert Pow(10, k) == 10 * Pow(10, k - 1) && Pow(10, k - 1) == 10 * Pow(10, k - 2);
      assert n >= 10 by {
        assert Pow(10, k - 2) >= 1;
      }
      DecimalLength(n / 10, k - 1);
    }
  }

  /** Cutting the last `j` digits off a numeral divides by a power of ten. */
  lemma {:induction false} DecimalPrefix(n: nat, j: nat)
    requires j < |ToDecimal(n)|
    ensures ToDecimal(n)[..|ToDecimal(n)| - j] == ToDecimal(n / Pow(10, j))
    decreases j
  {
    var s := ToDecimal(n);
    if j == 0 {
      assert s[..|s|] == s;
    } else {
      var t := ToDecimal(n / 10);
      DecimalPrefix(n / 10, j - 1);
      DropTail(s, t, DigitChar(n % 10), j);
      DivDiv(n, Pow(10, j - 1));
    }
  }

  lemma DropTail(s: string, t: string, c: char, j: nat)
    requires s == t + [c] && 0 < j <= |s|
    ensures s[..|s| - j] == t[..|t| - (j - 1)]
  {
  }

  lemma DivDiv(n: nat, p: nat)
    requires p > 0
    ensures 10 * p > 0 && n / 10 / p == n / (10 * p)
  {
    var q, r := n / 10, n % 10;
    var q', r' := q / p, q % p;
    assert n == 10 * (p * q' + r') + r;
    assert n == (10 * p) * q' + (10 * r' + r);
    assert 10 * r' + r < 10 * p;
    QuotientIs(n, 10 * p, q', 10 * r' + r);
  }

  lemma QuotientIs(n: int, d: int, q: int, r: int)
    requires d > 0 && n == d * q + r && 0 <= r < d
    ensures n / d == q
  {
    assert d * (n / d) <= n < d * (n / d) + d;
    assert d * (n / d - q) == d * (n / d) - d * q;
    SmallMultiple(d, n / d - q);
  }

  lemma SmallMultiple(d: int, e: int)
    requires -d < d * e < d
    ensures e == 0
  {
  }
}
