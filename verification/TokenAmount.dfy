/** Printing a token amount with a fixed number of decimals, and the same without trailing zeros. */
module TokenAmount {

  // ----- Decimal digits -----

  predicate IsDigit(c: char) { '0' <= c <= '9' }

  ghost predicate AllDigits(s: string) { forall i | 0 <= i < |s| :: IsDigit(s[i]) }

  function DigitOf(d: nat): (c: char)
    requires d < 10
    ensures IsDigit(c) && ValueOf(c) == d
  {
    '0' + d as char
  }

  function ValueOf(c: char): (d: nat)
    requires IsDigit(c)
    ensures d < 10
  {
    (c as int) - ('0' as int)
  }

  function Pow10(n: nat): (p: nat)
    ensures p > 0
  {
    if n == 0 then 1 else 10 * Pow10(n - 1)
  }

  function Parse(s: string): nat
    requires AllDigits(s)
  {
    if s == "" then 0 else 10 * Parse(s[..|s| - 1]) + ValueOf(s[|s| - 1])
  }

  function Print(n: nat): (s: string)
    ensures AllDigits(s) && s != ""
  {
    if n < 10 then [DigitOf(n)] else Print(n / 10) + [DigitOf(n % 10)]
  }

  function Zeros(n: nat): (s: string)
    ensures |s| == n && AllDigits(s) && forall i | 0 <= i < n :: s[i] == '0'
  {
    if n == 0 then "" else Zeros(n - 1) + "0"
  }

  /** Pad with zeros on the left to at least `width` characters. */
  function Pad(s: string, width: nat): (r: string)
    ensures AllDigits(s) ==> AllDigits(r)
    ensures |r| == if |s| < width then width else |s|
  {
    if |s| < width then Zeros(width - |s|) + s else s
  }

  lemma {:induction false} ParsePrint(n: nat)
    ensures Parse(Print(n)) == n
  {
    if n >= 10 {
      ParsePrint(n / 10);
      assert (Print(n / 10) + [DigitOf(n % 10)])[..|Print(n / 10)|] == Print(n / 10);
    }
  }

  lemma {:induction false} ParseZeros(n: nat)
    ensures Parse(Zeros(n)) == 0
  {
    if n > 0 {
      ParseZeros(n - 1);
      assert (Zeros(n - 1) + "0")[..n - 1] == Zeros(n - 1);
    }
  }

  lemma {:induction false} ParseLeadingZeros(n: nat, s: string)
    requires AllDigits(s)
    ensures AllDigits(Zeros(n) + s) && Parse(Zeros(n) + s) == Parse(s)
  {
    var padded := Zeros(n) + s;
    if s == "" {
      ParseZeros(n);
      assert padded == Zeros(n);
    } else {
      var front := s[..|s| - 1];
      ParseLeadingZeros(n, front);
      assert padded[..|padded| - 1] == Zeros(n) + front;
    }
  }

  lemma {:induction false} ParsePad(s: string, width: nat)
    requires AllDigits(s)
    ensures Parse(Pad(s, width)) == Parse(s)
  {
    if |s| < width {
      ParseLeadingZeros(width - |s|, s);
    }
  }

  // ----- The number that a decimal string denotes -----

  /** A decimal string: digits, then optionally a point and more digits. */
  datatype Decimal = Decimal(whole: string, fraction: string)
  {
    ghost predicate Valid() { AllDigits(whole) && AllDigits(fraction) && whole != "" }

    /** The number denoted is `Numerator() / 10^|fraction|`. */
    ghost function Numerator(): nat
      requires Valid()
    {
      Parse(whole + fraction)
    }
  }

  /** `s` is written as the decimal: with a point exactly when there is a fraction. */
  ghost predicate Writes(s: string, d: Decimal) {
    d.Valid() && s == if d.fraction == "" then d.whole else d.whole + "." + d.fraction
  }

  /** A string is written as at most one decimal. */
  lemma WritesOnce(s: string, a: Decimal, b: Decimal)
    requires Writes(s, a) && Writes(s, b)
    ensures a == b
  {
    assert a.fraction == "" ==> AllDigits(s);
    assert b.fraction == "" ==> AllDigits(s);
    assert a.fraction != "" ==> s[|a.whole|] == '.' && s[|a.whole| + 1..] == a.fraction && s[..|a.whole|] == a.whole;
    assert b.fraction != "" ==> s[|b.whole|] == '.' && s[|b.whole| + 1..] == b.fraction && s[..|b.whole|] == b.whole;
    if a.fraction != "" && b.fraction != "" {
      assert forall i | 0 <= i < |a.whole| :: IsDigit(s[i]);
      assert forall i | 0 <= i < |b.whole| :: IsDigit(s[i]);
      assert |a.whole| == |b.whole|;
    }
  }

  /** The decimal denotes exactly `amount / 10^decimals`, compared by cross-multiplication. */
  ghost predicate Denotes(d: Decimal, amount: nat, decimals: nat)
    requires d.Valid()
  {
    d.Numerator() * Pow10(decimals) == amount * Pow10(|d.fraction|)
  }

  // ----- Printing -----

  /** The padded digits with a point inserted before the last `decimals` of them. */
  function RealNumberString(amount: nat, decimals: nat): string {
    if decimals > 0 then
      var s := Pad(Print(amount), decimals + 1);
      s[..|s| - decimals] + "." + s[|s| - decimals..]
    else Print(amount)
  }

  function TrimEnd(s: string, c: char): (r: string)
    ensures |r| <= |s| && r == s[..|r|] && (r != "" ==> r[|r| - 1] != c)
    ensures forall i | |r| <= i < |s| :: s[i] == c
  {
    if s == "" then ""
    else if s[|s| - 1] == c then TrimEnd(s[..|s| - 1], c)
    else s
  }

  function RealNumberStringTrimmed(amount: nat, decimals: nat): string {
    var s := RealNumberString(amount, decimals);
    if decimals > 0 then TrimEnd(TrimEnd(s, '0'), '.') else s
  }

  /** The whole and the fractional digits that are printed. */
  ghost function Printed(amount: nat, decimals: nat): Decimal {
    var s := Pad(Print(amount), decimals + 1);
    if decimals > 0 then Decimal(s[..|s| - decimals], s[|s| - decimals..]) else Decimal(Print(amount), "")
  }

  /** The printed number has `decimals` fractional digits and denotes exactly `amount / 10^decimals`. */
  lemma PrintedIsExact(amount: nat, decimals: nat)
    ensures Writes(RealNumberString(amount, decimals), Printed(amount, decimals))
    ensures |Printed(amount, decimals).fraction| == decimals
    ensures Printed(amount, decimals).Numerator() == amount
    ensures Denotes(Printed(amount, decimals), amount, decimals)
  {
    var s := Pad(Print(amount), decimals + 1);
    ParsePrint(amount);
    ParsePad(Print(amount), decimals + 1);
    if decimals > 0 {
      assert s[..|s| - decimals] + s[|s| - decimals..] == s;
    } else {
      assert Print(amount) + "" == Print(amount);
    }
  }

  /** Printing is injective in the amount. */
  lemma PrintingIsInjective(a: nat, b: nat, decimals: nat)
    requires RealNumberString(a, decimals) == RealNumberString(b, decimals)
    ensures a == b
  {
    PrintedIsExact(a, decimals);
    PrintedIsExact(b, decimals);
    WritesOnce(RealNumberString(a, decimals), Printed(a, decimals), Printed(b, decimals));
  }

  // ----- Trimming -----

  lemma {:induction false} TrimDigits(prefix: string, digits: string)
    requires AllDigits(digits)
    ensures TrimEnd(prefix + "." + digits, '0') == prefix + "." + TrimEnd(digits, '0')
  {
    var s := prefix + "." + digits;
    if digits != "" {
      var n := |digits| - 1;
      assert s[|s| - 1] == digits[n];
      assert s[..|s| - 1] == prefix + "." + digits[..n];
      if digits[n] == '0' {
        TrimDigits(prefix, digits[..n]);
      }
    } else {
      assert s[|s| - 1] == '.';
    }
  }

  lemma {:induction false} ParseZeroDigit(s: string, front: string)
    requires AllDigits(s) && AllDigits(front) && s == front + "0"
    ensures Parse(s) == 10 * Parse(front)
  {
    assert s[..|s| - 1] == front;
  }

  /** Dropping trailing zeros divides numerator and denominator by the same power of ten. */
  lemma {:induction false} TrimKeepsNumerator(whole: string, digits: string)
    requires AllDigits(whole) && AllDigits(digits)
    ensures AllDigits(TrimEnd(digits, '0'))
    ensures Parse(whole + digits) * Pow10(|TrimEnd(digits, '0')|)
            == Parse(whole + TrimEnd(digits, '0')) * Pow10(|digits|)
  {
    if digits != "" && digits[|digits| - 1] == '0' {
      var n := |digits| - 1;
      var front := digits[..n];
      var kept := TrimEnd(digits, '0');
      TrimKeepsNumerator(whole, front);
      ParseZeroDigit(whole + digits, whole + front);
      TenTimes(Parse(whole + front), Pow10(|kept|), Parse(whole + kept), Pow10(n));
      assert Parse(whole + digits) == 10 * Parse(whole + front) && Pow10(|digits|) == 10 * Pow10(n);
    }
  }

  lemma TenTimes(a: nat, b: nat, c: nat, d: nat)
    requires a * b == c * d
    ensures (10 * a) * b == c * (10 * d)
  {
  }

  /** The digits that are left after trimming. */
  ghost function Trimmed(amount: nat, decimals: nat): Decimal {
    var printed := Printed(amount, decimals);
    Decimal(printed.whole, TrimEnd(printed.fraction, '0'))
  }

  /** Trimming keeps the value, and leaves neither a trailing fractional zero nor a trailing point. */
  lemma TrimmedIsExact(amount: nat, decimals: nat)
    ensures Writes(RealNumberStringTrimmed(amount, decimals), Trimmed(amount, decimals))
    ensures Denotes(Trimmed(amount, decimals), amount, decimals)
    ensures var fraction := Trimmed(amount, decimals).fraction; fraction != "" ==> fraction[|fraction| - 1] != '0'
  {
    var printed := Printed(amount, decimals);
    PrintedIsExact(amount, decimals);
    TrimKeepsNumerator(printed.whole, printed.fraction);
    if decimals > 0 {
      var s := RealNumberString(amount, decimals);
      var zerosGone := TrimEnd(s, '0');
      TrimDigits(printed.whole, printed.fraction);
      TrimPoint(printed.whole, TrimEnd(printed.fraction, '0'));
    }
  }

  lemma TrimPoint(whole: string, fraction: string)
    requires AllDigits(whole) && AllDigits(fraction) && whole != ""
    ensures TrimEnd(whole + "." + fraction, '.') == if fraction == "" then whole else whole + "." + fraction
  {
    var s := whole + "." + fraction;
    if fraction == "" {
      assert s[..|s| - 1] == whole;
      assert IsDigit(whole[|whole| - 1]);
    } else {
      assert s[|s| - 1] == fraction[|fraction| - 1];
    }
  }

  /** Trimmed printing is injective as well. */
  lemma TrimmedIsInjective(a: nat, b: nat, decimals: nat)
    requires RealNumberStringTrimmed(a, decimals) == RealNumberStringTrimmed(b, decimals)
    ensures a == b
  {
    TrimmedIsExact(a, decimals);
    TrimmedIsExact(b, decimals);
    WritesOnce(RealNumberStringTrimmed(a, decimals), Trimmed(a, decimals), Trimmed(b, decimals));
    Cancel(a, b, Pow10(|Trimmed(a, decimals).fraction|));
  }

  lemma Cancel(a: nat, b: nat, p: nat)
    requires p > 0 && a * p == b * p
    ensures a == b
  {
  }
}
