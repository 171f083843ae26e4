/** Numbers as exact decimals, and how a stream prints them: with sixteen significant digits. */
module Decimals {
  import opened Texts

  /** mantissa * 10^exponent */
  datatype RawDecimal = Dec(mantissa: int, exponent: int)

  predicate Canonical(d: RawDecimal) {
    if d.mantissa == 0 then d.exponent == 0 else d.mantissa % 10 != 0
  }

  /** Each number once: a long double has exactly one such value. */
  type Decimal = d: RawDecimal | Canonical(d) witness Dec(0, 0)

  function Abs(m: int): nat { if m < 0 then -m else m }

  /** The number m * 10^e. */
  function Canon(m: int, e: int): (d: Decimal)
    ensures Abs(d.mantissa) <= Abs(m)
    ensures m % 10 != 0 ==> d == Dec(m, e)
    decreases Abs(m)
  {
    if m == 0 then Dec(0, 0) else if m % 10 != 0 then Dec(m, e) else Canon(m / 10, e + 1)
  }

  function Power10(n: nat): (r: nat)
    ensures r > 0
  {
    if n == 0 then 1 else 10 * Power10(n - 1)
  }

  lemma {:induction false} CanonScaled(m: int, e: int, k: nat)
    ensures Canon(m * Power10(k), e) == Canon(m, e + k)
    decreases k
  {
    if k > 0 && m != 0 {
      ScaledByTen(m, Power10(k - 1));
      CanonScaled(m, e + 1, k - 1);
    } else if m == 0 {
      assert m * Power10(k) == 0;
    }
  }

  lemma ScaledByTen(m: int, p: nat)
    requires p > 0 && m != 0
    ensures m * (10 * p) != 0 && m * (10 * p) % 10 == 0 && m * (10 * p) / 10 == m * p
  {
    assert m * (10 * p) == 10 * (m * p);
    assert m * p != 0;
  }

  // Rounding

  /** std::numeric_limits<long double>::digits10 + 1 where a long double is a double. */
  const DIGITS: nat := 16
  const LIMIT: nat := 10_000_000_000_000_000

  /** At most sixteen significant digits. */
  predicate Short(d: Decimal) { Abs(d.mantissa) < LIMIT }

  /** n / 10^c to the nearest whole number, and to the even one of two. */
  function Nearest(n: nat, c: nat): nat { NearestMultiple(n, Power10(c)) }

  function NearestMultiple(n: nat, p: nat): nat
    requires p > 0
  {
    var q, r := n / p, n % p;
    if 2 * r > p || (2 * r == p && q % 2 == 1) then q + 1 else q
  }

  function Signed(negative: bool, n: nat): int { if negative then 0 - n as int else n }

  /** The number with sixteen significant digits that is nearest. */
  function Rounded(d: Decimal): Decimal {
    var n := Abs(d.mantissa);
    if n < LIMIT then d
    else
      LengthOfNat(n);
      LimitIsPower();
      LongNat(n);
      var c := |PrintNat(n)| - DIGITS;
      Canon(Signed(d.mantissa < 0, Nearest(n, c)), d.exponent + c)
  }

  lemma {:induction false} LengthOfNat(n: nat)
    requires n > 0
    ensures Power10(|PrintNat(n)| - 1) <= n < Power10(|PrintNat(n)|)
  {
    if n >= 10 {
      LengthOfNat(n / 10);
    } else {
      assert Power10(1) == 10 && Power10(0) == 1;
    }
  }

  lemma {:induction false} Power10Grows(a: nat, b: nat)
    requires a <= b
    ensures Power10(a) <= Power10(b)
  {
    if a < b {
      Power10Grows(a, b - 1);
    }
  }

  lemma LimitIsPower()
    ensures LIMIT == Power10(DIGITS)
  {
    assert Power10(4) == 10_000;
    assert Power10(8) == 100_000_000;
    assert Power10(12) == 1_000_000_000_000;
    assert Power10(16) == 10_000_000_000_000_000;
  }

  lemma LongNat(n: nat)
    requires n >= LIMIT
    ensures |PrintNat(n)| > DIGITS
  {
    LengthOfNat(n);
    LimitIsPower();
    if |PrintNat(n)| <= DIGITS {
      Power10Grows(|PrintNat(n)|, DIGITS);
    }
  }

  lemma {:induction false} Power10Sum(a: nat, b: nat)
    ensures Power10(a + b) == Power10(a) * Power10(b)
    decreases b
  {
    if b > 0 {
      Power10Sum(a, b - 1);
      assert Power10(a) * (10 * Power10(b - 1)) == 10 * (Power10(a) * Power10(b - 1));
    }
  }

  lemma QuotientBelow(n: nat, p: nat, l: nat)
    requires p > 0 && n < l * p
    ensures n / p < l
  {
    assert (n / p) * p <= n < l * p;
  }

  /** Rounding gives at most sixteen digits, and changes exactly the numbers that have more. */
  lemma RoundedExactly(d: Decimal)
    ensures Short(Rounded(d))
    ensures Rounded(d) == d <==> Short(d)
  {
    var n := Abs(d.mantissa);
    if n >= LIMIT {
      LengthOfNat(n);
      LimitIsPower();
      LongNat(n);
      var c := |PrintNat(n)| - DIGITS;
      Power10Sum(DIGITS, c);
      QuotientBelow(n, Power10(c), LIMIT);
      var q := Nearest(n, c);
      assert q <= LIMIT;
      var m := Signed(d.mantissa < 0, q);
      if q == LIMIT {
        TenthOfLimit(m, d.exponent + c);
      }
    }
  }

  lemma TenthOfLimit(m: int, e: int)
    requires Abs(m) == LIMIT
    ensures Abs(Canon(m, e).mantissa) < LIMIT
  {
    assert m % 10 == 0;
    assert Canon(m, e) == Canon(m / 10, e + 1);
    assert Abs(m / 10) == LIMIT / 10;
  }

  /** The multiple of p next to n: never more than half of p away, and even at exactly half. */
  lemma NearestIsNear(n: nat, p: nat)
    requires p > 0
    ensures var q := NearestMultiple(n, p);
      && 2 * Abs(n - q * p) <= p
      && (2 * Abs(n - q * p) == p ==> q % 2 == 0)
  {
    assert n == (n / p) * p + n % p;
    assert (n / p + 1) * p == (n / p) * p + p;
  }

  /** The number d in units of 10^-k. */
  function Scaled(d: RawDecimal, k: int): int
    requires d.exponent + k >= 0
  {
    d.mantissa * Power10(d.exponent + k)
  }

  function Distance(a: RawDecimal, b: RawDecimal, k: int): nat
    requires a.exponent + k >= 0 && b.exponent + k >= 0
  {
    Abs(Scaled(a, k) - Scaled(b, k))
  }

  lemma {:induction false} CanonIsSame(m: int, e: int, k: int)
    requires m != 0 && e + k >= 0
    ensures Canon(m, e).exponent + k >= 0 && Scaled(Canon(m, e), k) == Scaled(Dec(m, e), k)
    decreases Abs(m)
  {
    hide Power10;
    if m % 10 == 0 {
      CanonIsSame(m / 10, e + 1, k);
      OnePlaceOn(m / 10, e + k);
      assert m == m / 10 * 10;
    }
  }

  lemma OnePlaceOn(m: int, e: nat)
    ensures m * Power10(e + 1) == m * 10 * Power10(e)
  {
    assert Power10(e + 1) == 10 * Power10(e);
    Associate(m, 10, Power10(e));
  }

  lemma Difference(a: int, b: int, p: int)
    ensures (a - b) * p == a * p - b * p
  {
  }

  lemma MultiplesAreApart(p: nat, q: int, j: int)
    ensures j > q ==> j * p >= q * p + p
    ensures j < q ==> j * p + p <= q * p
  {
    Difference(j, q, p);
    Difference(q, j, p);
    if j > q {
      TimesAtLeast(1, j - q, p);
    } else if j < q {
      TimesAtLeast(1, q - j, p);
    }
  }

  /** No multiple of p is nearer than the one that is at most half of p away. */
  lemma NoMultipleIsNearer(n: int, p: nat, q: int, j: int)
    requires 2 * Abs(n - q * p) <= p
    ensures Abs(n - q * p) <= Abs(n - j * p)
  {
    MultiplesAreApart(p, q, j);
  }

  lemma TimesAtLeast(a: nat, b: nat, p: nat)
    requires a <= b
    ensures a * p <= b * p
  {
  }

  /** A rounded magnitude in units of 10^-k, for a number of 16 + c digits. */
  lemma RoundedNear(n: nat, c: nat, e: nat)
    requires n >= LIMIT && |PrintNat(n)| == DIGITS + c
    ensures 2 * Abs(n * Power10(e) - Nearest(n, c) * Power10(c + e)) <= Power10(c + e)
    ensures n * Power10(e) >= Power10(DIGITS - 1) * Power10(c + e)
  {
    hide Power10, NearestMultiple, PrintNat;
    var p, u := Power10(c), Power10(e);
    NearestIsNear(n, p);
    Power10Sum(c, e);
    ScaleDistance(n, Nearest(n, c), p, u);
    LengthOfNat(n);
    Power10Sum(DIGITS - 1, c);
    TimesAtLeast(Power10(DIGITS - 1) * p, n, u);
    Associate(Power10(DIGITS - 1), p, u);
  }

  lemma Associate(a: int, b: int, c: int)
    ensures a * b * c == a * (b * c)
  {
  }

  lemma ScaleDistance(n: nat, q: nat, p: nat, u: nat)
    requires 2 * Abs(n - q * p) <= p
    ensures 2 * Abs(n * u - q * (p * u)) <= p * u
  {
    var d := Abs(n - q * p);
    Difference(n, q * p, u);
    Associate(q, p, u);
    AbsTimes(n - q * p, u);
    Associate(2, d, u);
    TimesAtLeast(2 * d, p, u);
  }

  lemma AbsTimes(d: int, u: nat)
    ensures Abs(d * u) == Abs(d) * u
  {
    Opposite(d, u);
    if d >= 0 {
      assert d * u >= 0;
    } else {
      assert -d * u >= 0;
    }
  }

  /** A magnitude with at most sixteen digits is a multiple of the unit, or lies below all numbers
      of 16 + c digits. */
  lemma ShortIsFar(n: int, q: int, m: int, f: nat, u: nat)
    requires Abs(m) < LIMIT && 2 * Abs(n - q * Power10(u)) <= Power10(u)
    requires n >= Power10(DIGITS - 1) * Power10(u)
    ensures Abs(n - q * Power10(u)) <= Abs(n - m * Power10(f))
  {
    hide Power10;
    if f >= u {
      Power10Sum(f - u, u);
      Associate(m, Power10(f - u), Power10(u));
      NoMultipleIsNearer(n, Power10(u), q, m * Power10(f - u));
    } else {
      NoMultipleIsNearer(n, Power10(u), q, Power10(DIGITS - 1));
      ShortIsBelow(m, f, u);
    }
  }

  lemma ShortIsBelow(m: int, f: nat, u: nat)
    requires Abs(m) < LIMIT && f < u
    ensures m * Power10(f) <= Power10(DIGITS - 1) * Power10(u)
  {
    hide Power10;
    LimitIsPower();
    Power10Sum(DIGITS, f);
    Power10Sum(DIGITS - 1, u);
    Power10Grows(DIGITS + f, DIGITS - 1 + u);
    TimesAtLeast(Abs(m), LIMIT, Power10(f));
    AtMostAbs(m, Power10(f));
  }

  lemma AtMostAbs(m: int, p: nat)
    ensures m * p <= Abs(m) * p
  {
    if m < 0 {
      Opposite(m, p);
    }
  }

  /** No number of at most sixteen significant digits is nearer to d than the one printed for it. */
  lemma NoneIsNearer(d: Decimal, t: Decimal, k: int)
    requires Short(t) && d.exponent + k >= 0 && t.exponent + k >= 0
    ensures Rounded(d).exponent + k >= 0
    ensures Distance(Rounded(d), d, k) <= Distance(t, d, k)
  {
    hide Power10, Canon, Nearest, PrintNat;
    var n := Abs(d.mantissa);
    if n >= LIMIT {
      LengthOfNat(n);
      LimitIsPower();
      LongNat(n);
      var c := |PrintNat(n)| - DIGITS;
      var e := d.exponent + k;
      var q := Nearest(n, c);
      RoundedNear(n, c, e);
      RoundedIsNotZero(n, c);
      CanonIsSame(Signed(d.mantissa < 0, q), d.exponent + c, k);
      var m := if d.mantissa < 0 then -t.mantissa else t.mantissa;
      ShortIsFar(n * Power10(e), q, m, t.exponent + k, c + e);
      SameDistances(d.mantissa < 0, n, q, m, Power10(e), Power10(c + e), Power10(t.exponent + k));
    }
  }

  /** Distances do not depend on the sign. */
  lemma SameDistances(negative: bool, n: nat, q: nat, m: int, a: nat, b: nat, c: nat)
    ensures Abs(Signed(negative, q) * b - Signed(negative, n) * a) == Abs(n * a - q * b)
    ensures Abs((if negative then -m else m) * c - Signed(negative, n) * a) == Abs(n * a - m * c)
  {
    Opposite(n, a);
    Opposite(q, b);
    Opposite(m, c);
  }

  lemma Opposite(a: int, p: int)
    ensures -a * p == -(a * p)
  {
  }

  lemma RoundedIsNotZero(n: nat, c: nat)
    requires n >= LIMIT && |PrintNat(n)| == DIGITS + c
    ensures Nearest(n, c) > 0
  {
    hide Power10, NearestMultiple, PrintNat;
    NearestIsNear(n, Power10(c));
    LengthOfNat(n);
    Power10Sum(DIGITS - 1, c);
    TenTimes(DIGITS - 1);
    TimesAtLeast(10, Power10(DIGITS - 1), Power10(c));
  }

  lemma TenTimes(k: nat)
    requires k > 0
    ensures Power10(k) >= 10
  {
  }

  // Printing

  function Zeros(n: nat): (r: string)
    ensures |r| == n
  {
    if n == 0 then "" else Zeros(n - 1) + "0"
  }

  /** An exponent has at least two digits. */
  function ExponentText(x: int): string {
    (if x < 0 then "-" else "+") + (if Abs(x) < 10 then "0" else "") + PrintNat(Abs(x))
  }

  /** The digits of n with the point or the exponent that make them n * 10^e. */
  function Placed(n: nat, e: int): string {
    var digits := PrintNat(n);
    var x := |digits| - 1 + e;
    if n == 0 then "0"
    else if -4 <= x < DIGITS then
      if e >= 0 then digits + Zeros(e)
      else if x >= 0 then digits[..x + 1] + "." + digits[x + 1..]
      else "0." + Zeros(-x - 1) + digits
    else
      digits[..1] + (if |digits| > 1 then "." + digits[1..] else "") + "e" + ExponentText(x)
  }

  /** `ss << std::setprecision(16) << d`. */
  function PrintNumber(d: Decimal): string {
    var t := Rounded(d);
    (if t.mantissa < 0 then "-" else "") + Placed(Abs(t.mantissa), t.exponent)
  }

  // The form of the text

  lemma {:induction false} NatChars(n: nat)
    ensures forall i :: 0 <= i < |PrintNat(n)| ==> IsDigit(PrintNat(n)[i])
    ensures PrintNat(n)[|PrintNat(n)| - 1] == '0' <==> n % 10 == 0
  {
    if n >= 10 {
      NatChars(n / 10);
    }
  }

  lemma {:induction false} ZerosChars(n: nat)
    ensures forall i :: 0 <= i < n ==> Zeros(n)[i] == '0'
  {
    if n > 0 {
      ZerosChars(n - 1);
    }
  }

  /** How many digits the exponent has. */
  function ExponentWidth(x: int): nat { if Abs(x) < 10 then 2 else |PrintNat(Abs(x))| }

  /** The text s, behind its sign, of a number with so many digits: the scientific form exactly when
      the decimal exponent is below -4 or at least sixteen, with one digit in front of the point and
      at least two in the exponent; else no more zeros than needed, and none last after a point. */
  predicate HasForm(s: string, sign: nat, zero: bool, digits: nat, e: int) {
    var x := digits - 1 + e;
    && ('e' in s <==> !zero && (x < -4 || x >= 16))
    && ('e' !in s ==>
          && |s| == sign + (if e >= 0 then digits + e else if x >= 0 then digits + 1 else digits + 1 - x)
          && ('.' in s ==> s[|s| - 1] != '0'))
    && ('e' in s ==>
          var m := sign + digits + if digits > 1 then 1 else 0;
          && |s| == m + 2 + (if Abs(x) < 10 then 2 else |PrintNat(Abs(x))|)
          && s[m] == 'e' && s[m + 1] == (if x < 0 then '-' else '+')
          && (digits > 1 ==> s[sign + 1] == '.'))
  }

  predicate NoLetters(t: string) { 'e' !in t && '.' !in t && '-' !in t && '+' !in t }

  lemma DigitsOnly(n: nat)
    ensures NoLetters(PrintNat(n))
    ensures PrintNat(n)[|PrintNat(n)| - 1] == '0' <==> n % 10 == 0
  {
    NatChars(n);
  }

  lemma ZerosOnly(n: nat)
    ensures NoLetters(Zeros(n))
  {
    ZerosChars(n);
  }

  lemma WholeForm(text: string, zeros: string)
    requires NoLetters(text) && NoLetters(zeros) && text != ""
    ensures |text| + |zeros| - 1 < 16 ==> HasForm(text + zeros, 0, false, |text|, |zeros|)
    ensures NoLetters(text + zeros)
  {
  }

  lemma PointForm(before: string, after: string, digits: nat, e: int)
    requires NoLetters(before) && NoLetters(after) && after != "" && after[|after| - 1] != '0'
    requires before != "" && e < 0 && -4 <= digits - 1 + e < 16
    requires |before| + 1 + |after| == if digits - 1 + e >= 0 then digits + 1 else 2 - e
    ensures HasForm(before + "." + after, 0, false, digits, e)
    ensures (before + "." + after)[0] != '-'
  {
    var s := before + "." + after;
    assert s[|s| - 1] == after[|after| - 1];
  }

  lemma ScientificForm(text: string, e: int)
    requires NoLetters(text) && text != ""
    requires var x := |text| - 1 + e; x < -4 || x >= 16
    ensures var s := text[..1] + (if |text| > 1 then "." + text[1..] else "") + "e" + ExponentText(|text| - 1 + e);
      HasForm(s, 0, false, |text|, e) && s[0] != '-'
  {
    hide PrintNat;
    var x := |text| - 1 + e;
    var front := text[..1] + if |text| > 1 then "." + text[1..] else "";
    var s := front + "e" + ExponentText(x);
    OneDigit(Abs(x));
    assert s[|front|] == 'e';
    assert s[|front| + 1] == ExponentText(x)[0];
    if |text| > 1 {
      assert s[1] == front[1] == '.';
    }
  }

  lemma FixedForm(n: nat, e: int)
    requires n != 0 && n % 10 != 0 && -4 <= |PrintNat(n)| - 1 + e < DIGITS
    ensures HasForm(Placed(n, e), 0, false, |PrintNat(n)|, e) && Placed(n, e) != "" && Placed(n, e)[0] != '-'
  {
    hide PrintNat, Zeros, HasForm, ExponentText, NoLetters;
    var text := PrintNat(n);
    DigitsOnly(n);
    var x := |text| - 1 + e;
    if e >= 0 {
      ZerosOnly(e);
      WholeForm(text, Zeros(e));
      NoMinus(text + Zeros(e));
    } else if x >= 0 {
      CutDigits(text, x + 1);
      PointForm(text[..x + 1], text[x + 1..], |text|, e);
    } else {
      ZerosOnly(-x - 1);
      SmallDigits(Zeros(-x - 1), text);
      assert "0." + Zeros(-x - 1) + text == "0" + "." + (Zeros(-x - 1) + text);
      PointForm("0", Zeros(-x - 1) + text, |text|, e);
    }
  }

  lemma PlacedForm(n: nat, e: int)
    requires n == 0 ==> e == 0
    requires n != 0 ==> n % 10 != 0
    ensures HasForm(Placed(n, e), 0, n == 0, |PrintNat(n)|, e) && Placed(n, e) != "" && Placed(n, e)[0] != '-'
  {
    hide PrintNat, Zeros, HasForm, ExponentText, NoLetters;
    var text := PrintNat(n);
    DigitsOnly(n);
    if n == 0 {
      ZeroForm();
    } else if -4 <= |text| - 1 + e < DIGITS {
      FixedForm(n, e);
    } else {
      ScientificForm(text, e);
    }
  }

  lemma OneDigit(n: nat)
    ensures n < 10 ==> |PrintNat(n)| == 1
  {
  }

  lemma ZeroForm()
    ensures PrintNat(0) == "0" && HasForm("0", 0, true, 1, 0)
  {
  }

  lemma NoMinus(t: string)
    requires NoLetters(t) && t != ""
    ensures t[0] != '-'
  {
  }

  lemma CutDigits(text: string, k: nat)
    requires NoLetters(text) && 0 < k < |text|
    ensures NoLetters(text[..k]) && NoLetters(text[k..]) && text[k..][|text| - k - 1] == text[|text| - 1]
  {
  }

  lemma SmallDigits(zeros: string, text: string)
    requires NoLetters(zeros) && NoLetters(text) && text != ""
    ensures NoLetters(zeros + text) && (zeros + text)[|zeros + text| - 1] == text[|text| - 1]
    ensures NoLetters("0")
  {
  }

  /** The text of a number starts with a minus sign exactly when it is negative. */
  lemma FormExactly(d: Decimal)
    ensures var t := Rounded(d);
      var s := PrintNumber(d);
      && s != "" && (s[0] == '-' <==> t.mantissa < 0)
      && HasForm(s, if t.mantissa < 0 then 1 else 0, t.mantissa == 0, |PrintNat(Abs(t.mantissa))|, t.exponent)
  {
    hide Placed, Rounded, PrintNat, HasForm;
    var t := Rounded(d);
    PlacedForm(Abs(t.mantissa), t.exponent);
    var placed := Placed(Abs(t.mantissa), t.exponent);
    if t.mantissa < 0 {
      SignedForm(placed, |PrintNat(Abs(t.mantissa))|, t.exponent);
    } else {
      assert PrintNumber(d) == placed;
    }
  }

  lemma SignedForm(placed: string, digits: nat, e: int)
    requires HasForm(placed, 0, false, digits, e) && placed != ""
    ensures HasForm("-" + placed, 1, false, digits, e)
  {
    hide PrintNat;
    var s := "-" + placed;
    assert forall i :: 0 <= i < |placed| ==> s[i + 1] == placed[i];
    SameChars(placed, 'e');
    SameChars(placed, '.');
  }

  lemma SameChars(placed: string, c: char)
    requires c != '-'
    ensures c in "-" + placed <==> c in placed
  {
  }
}
