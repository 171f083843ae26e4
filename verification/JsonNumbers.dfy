/** The parser reads a printed number back as the number that was printed. */
module JsonNumbers {
  import opened Texts
  import opened Decimals
  import opened Options
  import opened Scan = JsonScan

  // Runs of digits

  predicate AllDigits(t: string) { forall k :: 0 <= k < |t| ==> IsDigit(t[k]) }

  function ValueOf(t: string): nat
    requires AllDigits(t)
  {
    if t == "" then 0
    else
      var n := |t| - 1;
      assert IsDigit(t[n]);
      10 * ValueOf(t[..n]) + (t[n] as int - '0' as int)
  }

  lemma {:induction false} ValueOfJoin(a: string, b: string)
    requires AllDigits(a) && AllDigits(b)
    ensures AllDigits(a + b) && ValueOf(a + b) == ValueOf(a) * Power10(|b|) + ValueOf(b)
    decreases |b|
  {
    if b == "" {
      assert a + b == a;
    } else {
      var n := |b| - 1;
      assert (a + b)[..|a + b| - 1] == a + b[..n] && (a + b)[|a + b| - 1] == b[n];
      ValueOfJoin(a, b[..n]);
      TenTimes(ValueOf(a), Power10(n), ValueOf(b[..n]));
    }
  }

  lemma TenTimes(a: nat, p: nat, b: nat)
    ensures 10 * (a * p + b) == a * (10 * p) + 10 * b
  {
  }

  lemma {:induction false} ValueOfNat(n: nat)
    ensures AllDigits(PrintNat(n)) && ValueOf(PrintNat(n)) == n
  {
    if n >= 10 {
      ValueOfNat(n / 10);
    } else {
      assert PrintNat(n)[..0] == "";
    }
  }

  lemma {:induction false} ValueOfZeros(n: nat)
    ensures AllDigits(Zeros(n)) && ValueOf(Zeros(n)) == 0
  {
    if n > 0 {
      ValueOfZeros(n - 1);
    }
  }

  lemma {:induction false} RunValue(s: string, i: nat, t: string)
    requires At(s, i, t) && AllDigits(t)
    ensures forall k :: i <= k < i + |t| ==> IsDigit(s[k])
    ensures DigitsValue(s, i, i + |t|) == ValueOf(t)
    decreases |t|
  {
    if t != "" {
      var n := |t| - 1;
      assert t == t[..n] + [t[n]];
      AtSplit(s, i, t[..n], [t[n]]);
      AtChar(s, i + n, [t[n]], 0);
      RunValue(s, i, t[..n]);
    }
  }

  lemma RunRead(s: string, i: nat, t: string)
    requires At(s, i, t) && AllDigits(t) && i + |t| < |s| && !IsDigit(s[i + |t|])
    ensures Digits(s, i) == Read(t != "", ValueOf(t), i + |t|)
  {
    hide DigitsEnd, DigitsValue, ValueOf, At;
    RunIsInside(s, i, t);
    RunValue(s, i, t);
    DigitsEndAt(s, i, i + |t|);
  }

  lemma RunIsInside(s: string, i: nat, t: string)
    requires At(s, i, t)
    ensures i + |t| <= |s|
  {
  }

  // Tokens

  predicate EndsNumber(c: char) { !IsDigit(c) && c != '.' && c != 'e' && c != 'E' }

  function FractionText(fraction: string): string { if fraction == "" then "" else "." + fraction }

  datatype RawExponent = Exponent(mark: char, sign: string, digits: string)

  predicate IsSign(sign: string) { sign == "" || sign == "+" || sign == "-" }

  predicate ValidExponent(x: RawExponent) {
    && (x.mark == 'e' || x.mark == 'E')
    && IsSign(x.sign)
    && AllDigits(x.digits) && x.digits != ""
  }

  type Exponent = x: RawExponent | ValidExponent(x) witness Exponent('e', "", "0")

  function ScaleText(scale: Option<Exponent>): string {
    if scale.None? then "" else [scale.value.mark] + (scale.value.sign + scale.value.digits)
  }

  function ScaleOf(scale: Option<Exponent>): int {
    if scale.None? then 0
    else if scale.value.sign == "-" then 0 - ValueOf(scale.value.digits) as int
    else ValueOf(scale.value.digits)
  }

  /** A number token: a sign, digits, a fraction and an exponent. */
  function Token(negative: bool, whole: string, fraction: string, scale: Option<Exponent>): string {
    (if negative then "-" else "") + (whole + (FractionText(fraction) + ScaleText(scale)))
  }

  lemma ExponentDigits(x: int)
    ensures var t := (if Abs(x) < 10 then "0" else "") + PrintNat(Abs(x));
      AllDigits(t) && t != "" && ValueOf(t) == Abs(x) && ExponentText(x) == (if x < 0 then "-" else "+") + t
  {
    ValueOfNat(Abs(x));
    ValueOfZeros(1);
    assert Zeros(1) == "0";
    ValueOfJoin(if Abs(x) < 10 then "0" else "", PrintNat(Abs(x)));
    assert ValueOf("") == 0;
    var t := (if Abs(x) < 10 then "0" else "") + PrintNat(Abs(x));
    assert ExponentText(x) == (if x < 0 then "-" else "+") + t;
  }

  /** The exponent as a stream prints it. */
  function Printed(x: int): (r: Exponent)
    ensures ScaleOf(Some(r)) == x && ScaleText(Some(r)) == "e" + ExponentText(x)
  {
    ExponentDigits(x);
    Exponent('e', if x < 0 then "-" else "+", (if Abs(x) < 10 then "0" else "") + PrintNat(Abs(x)))
  }

  lemma ScaleRead(s: string, i: nat, scale: Option<Exponent>)
    requires At(s, i, ScaleText(scale)) && i + |ScaleText(scale)| < |s| && EndsNumber(s[i + |ScaleText(scale)|])
    ensures ScanExponent(s, i) == Read(true, ScaleOf(scale), i + |ScaleText(scale)|)
  {
    hide At, ScanExponent, AllDigits, ValueOf;
    if scale.Some? {
      var x := scale.value;
      ExponentRead(s, i, x.mark, x.sign, x.digits);
    } else {
      NoExponent(s, i);
    }
  }

  lemma NoExponent(s: string, i: nat)
    requires i < |s| && EndsNumber(s[i])
    ensures ScanExponent(s, i) == Read(true, 0, i)
  {
  }

  lemma ExponentRead(s: string, i: nat, mark: char, sign: string, digits: string)
    requires (mark == 'e' || mark == 'E') && IsSign(sign) && AllDigits(digits) && digits != ""
    requires At(s, i, [mark] + (sign + digits))
    requires var end := i + 1 + |sign| + |digits|; end < |s| && !IsDigit(s[end])
    ensures ScanExponent(s, i)
         == Read(true, if sign == "-" then 0 - ValueOf(digits) as int else ValueOf(digits), i + 1 + |sign| + |digits|)
  {
    hide At, Digits, AllDigits, ValueOf, SignEnd, SignedValue, IsSign, IsDigit;
    AtSplit(s, i, [mark], sign + digits);
    AtSplit(s, i + 1, sign, digits);
    AtChar(s, i, [mark], 0);
    ExponentSign(s, i + 1, sign, digits);
    RunRead(s, i + 1 + |sign|, digits);
  }

  lemma ExponentSign(s: string, i: nat, sign: string, digits: string)
    requires IsSign(sign) && At(s, i, sign) && At(s, i + |sign|, digits) && AllDigits(digits) && digits != ""
    ensures i <= |s| && SignEnd(s, i) == i + |sign|
    ensures forall n :: SignedValue(s, i, n) == if sign == "-" then 0 - n as int else n
  {
    hide AllDigits;
    FirstDigit(s, i + |sign|, digits);
    if sign != "" {
      AtChar(s, i, sign, 0);
    }
  }

  lemma FirstDigit(s: string, i: nat, t: string)
    requires At(s, i, t) && AllDigits(t) && t != ""
    ensures i < |s| && IsDigit(s[i])
  {
    AtChar(s, i, t, 0);
  }

  lemma ScaleStarts(s: string, i: nat, scale: Option<Exponent>)
    requires At(s, i, ScaleText(scale)) && i + |ScaleText(scale)| < |s| && EndsNumber(s[i + |ScaleText(scale)|])
    ensures !IsDigit(s[i]) && s[i] != '.'
  {
    if scale.Some? {
      AtChar(s, i, ScaleText(scale), 0);
    }
  }

  /** The number that the parts of a token denote. */
  function TokenValue(negative: bool, whole: string, fraction: string, scale: Option<Exponent>): Decimal
    requires AllDigits(whole) && AllDigits(fraction)
  {
    Canon(Signed(negative, ValueOf(whole) * Power10(|fraction|) + ValueOf(fraction)), ScaleOf(scale) - |fraction|)
  }

  lemma NoFraction(fraction: string)
    requires AllDigits(fraction)
    ensures |FractionText(fraction)| == if fraction == "" then 0 else 1 + |fraction|
    ensures fraction == "" ==> ValueOf(fraction) == 0 && Power10(|fraction|) == 1
    ensures Power10(0) == 1
  {
  }

  // Tokens beyond the printed ones

  /** A token with either sign or none; it may lack the digits in front of its point or behind it. */
  function LooseToken(sign: string, whole: string, point: bool, fraction: string, scale: Option<Exponent>): string {
    sign + (whole + ((if point then "." + fraction else "") + ScaleText(scale)))
  }

  predicate ValidLoose(sign: string, whole: string, point: bool, fraction: string) {
    && IsSign(sign) && AllDigits(whole) && AllDigits(fraction)
    && (whole != "" || fraction != "") && (fraction != "" ==> point)
  }

  lemma LooseStarts(s: string, i: nat, sign: string, whole: string, point: bool, fraction: string,
                    scale: Option<Exponent>) returns (a: nat, p: nat, q: nat)
    requires ValidLoose(sign, whole, point, fraction)
    requires At(s, i, LooseToken(sign, whole, point, fraction, scale))
    ensures a == i + |sign| && p == a + |whole| && q == p + (if point then 1 + |fraction| else 0)
    ensures i < |s| && At(s, a, whole) && At(s, q, ScaleText(scale)) && q <= |s| && p <= |s|
    ensures sign == "" ==> a < |s| && (IsDigit(s[i]) || s[i] == '.')
    ensures sign != "" ==> s[i] == sign[0]
    ensures point ==> p < |s| && s[p] == '.' && At(s, p + 1, fraction)
  {
    hide ScaleText, AllDigits, At;
    var dotted := if point then "." + fraction else "";
    a, p := i + |sign|, i + |sign| + |whole|;
    q := p + |dotted|;
    AtSplit(s, i, sign, whole + (dotted + ScaleText(scale)));
    AtSplit(s, a, whole, dotted + ScaleText(scale));
    AtSplit(s, p, dotted, ScaleText(scale));
    if sign != "" {
      AtChar(s, i, sign, 0);
    }
    if point {
      AtSplit(s, p, ".", fraction);
      AtChar(s, p, ".", 0);
    }
    if whole != "" {
      FirstDigit(s, a, whole);
    }
    RunIsInside(s, a, whole);
    RunIsInside(s, q, ScaleText(scale));
  }

  lemma LooseTokenRead(s: string, i: nat, sign: string, whole: string, point: bool, fraction: string,
                       scale: Option<Exponent>)
    requires ValidLoose(sign, whole, point, fraction)
    requires At(s, i, LooseToken(sign, whole, point, fraction, scale))
    requires var end := i + |LooseToken(sign, whole, point, fraction, scale)|; end < |s| && EndsNumber(s[end])
    ensures ScanDecimal(s, i) == Read(true, TokenValue(sign == "-", whole, fraction, scale),
                                      i + |LooseToken(sign, whole, point, fraction, scale)|)
    ensures IsDigit(s[i]) || s[i] == '-' || s[i] == '+' || s[i] == '.'
  {
    hide Canon, Power10, At, ScanExponent, ScanDecimal, Digits, ScaleText, ScaleOf, AllDigits, ValueOf, EndsNumber,
         IsDigit;
    var a, p, q := LooseStarts(s, i, sign, whole, point, fraction, scale);
    ScaleRead(s, q, scale);
    ScaleStarts(s, q, scale);
    DotsAndSigns();
    if point {
      RunRead(s, p + 1, fraction);
    }
    RunRead(s, a, whole);
    EmptyIsNothing();
    LooseScan(s, i, a, p, q, Read(whole != "", ValueOf(whole), p), point,
              Read(fraction != "", ValueOf(fraction), q), ScaleOf(scale), q + |ScaleText(scale)|);
    LooseSign(s, i, sign, ValueOf(whole) * Power10(|fraction|) + ValueOf(fraction));
  }

  lemma EmptyIsNothing()
    ensures AllDigits("") && ValueOf("") == 0 && Power10(0) == 1
  {
  }

  lemma LooseSign(s: string, i: nat, sign: string, n: nat)
    requires i < |s| && IsSign(sign) && (if sign != "" then s[i] == sign[0] else IsDigit(s[i]) || s[i] == '.')
    ensures SignEnd(s, i) == i + |sign| && SignedValue(s, i, n) == Signed(sign == "-", n)
  {
  }

  lemma LooseScan(s: string, i: nat, a: nat, p: nat, q: nat, whole: Read<nat>, point: bool, fraction: Read<nat>,
                  x: int, end: nat)
    requires i <= a <= p <= q <= |s| && p < |s| && (fraction.ok ==> p < q)
    requires SignEnd(s, i) == a && Digits(s, a) == whole && whole.pos == p && (point <==> s[p] == '.')
    requires if point then Digits(s, p + 1) == fraction else fraction == Read(false, 0, p)
    requires fraction.pos == q && (whole.ok || fraction.ok) && ScanExponent(s, q) == Read(true, x, end)
    ensures var places := if fraction.ok then q - p - 1 else 0;
      ScanDecimal(s, i)
        == Read(true, Canon(SignedValue(s, i, whole.value * Power10(places) + fraction.value), x - places), end)
  {
    hide Digits, ScanExponent, Canon, Power10, SignEnd, SignedValue;
  }

  lemma DotsAndSigns()
    ensures !IsDigit('.') && !IsDigit('-') && !IsDigit('+')
  {
  }

  lemma TokenIsLoose(negative: bool, whole: string, fraction: string, scale: Option<Exponent>)
    requires AllDigits(whole) && whole != "" && AllDigits(fraction)
    ensures var sign := if negative then "-" else "";
      && ValidLoose(sign, whole, fraction != "", fraction)
      && Token(negative, whole, fraction, scale) == LooseToken(sign, whole, fraction != "", fraction, scale)
  {
    hide ScaleText;
  }

  lemma TokenRead(s: string, i: nat, negative: bool, whole: string, fraction: string, scale: Option<Exponent>)
    requires AllDigits(whole) && whole != "" && AllDigits(fraction)
    requires At(s, i, Token(negative, whole, fraction, scale))
    requires var end := i + |Token(negative, whole, fraction, scale)|; end < |s| && EndsNumber(s[end])
    ensures ScanDecimal(s, i) == Read(true, TokenValue(negative, whole, fraction, scale),
                                      i + |Token(negative, whole, fraction, scale)|)
    ensures IsDigit(s[i]) || s[i] == '-'
  {
    hide *;
    TokenIsLoose(negative, whole, fraction, scale);
    LooseTokenRead(s, i, if negative then "-" else "", whole, fraction != "", fraction, scale);
    TokenChars(negative, whole, fraction, scale);
    AtChar(s, i, Token(negative, whole, fraction, scale), 0);
  }

  /** An exponent without digits makes the whole token no number. */
  lemma BadExponent(s: string, i: nat, sign: string, whole: string, mark: char, scaleSign: string)
    requires IsSign(sign) && IsSign(scaleSign) && AllDigits(whole) && whole != "" && (mark == 'e' || mark == 'E')
    requires At(s, i, sign + (whole + ([mark] + scaleSign)))
    requires var end := i + |sign + (whole + ([mark] + scaleSign))|;
      end < |s| && !IsDigit(s[end]) && s[end] != '-' && s[end] != '+'
    ensures ScanDecimal(s, i) == Read(false, Dec(0, 0), i)
  {
    hide Canon, Power10, At, AllDigits, ValueOf, DigitsValue, Digits, SignEnd, SignedValue, ScanExponent;
    var a, p := i + |sign|, i + |sign| + |whole|;
    AtSplit(s, i, sign, whole + ([mark] + scaleSign));
    AtSplit(s, a, whole, [mark] + scaleSign);
    AtSplit(s, p, [mark], scaleSign);
    AtChar(s, p, [mark], 0);
    ExponentSign(s, i, sign, whole);
    RunRead(s, a, whole);
    NoExponentDigits(s, p, scaleSign);
  }

  lemma NoExponentDigits(s: string, p: nat, scaleSign: string)
    requires p < |s| && (s[p] == 'e' || s[p] == 'E') && IsSign(scaleSign) && At(s, p + 1, scaleSign)
    requires var end := p + 1 + |scaleSign|; end < |s| && !IsDigit(s[end]) && s[end] != '-' && s[end] != '+'
    ensures !ScanExponent(s, p).ok
  {
    hide DigitsValue;
    if scaleSign != "" {
      AtChar(s, p + 1, scaleSign, 0);
    }
  }

  // Printed numbers are tokens

  /** The parts denote n * 10^e, with either sign. */
  predicate Denote(whole: string, fraction: string, scale: Option<Exponent>, negative: bool, n: nat, e: int)
    requires AllDigits(whole) && AllDigits(fraction)
  {
    TokenValue(negative, whole, fraction, scale) == Dec(Signed(negative, n), e)
  }

  lemma SignedTimes(negative: bool, n: nat, p: nat)
    ensures Signed(negative, n * p) == Signed(negative, n) * p
  {
  }

  lemma SignedIsCanonical(negative: bool, n: nat, e: int)
    requires Canonical(Dec(n, e))
    ensures Canon(Signed(negative, n), e) == Dec(Signed(negative, n), e)
  {
    LastDigitStays(n);
  }

  lemma LastDigitStays(n: nat)
    ensures n % 10 != 0 ==> (0 - n as int) % 10 != 0
  {
  }

  lemma DenoteScaled(negative: bool, n: nat, k: nat, whole: string)
    requires Canonical(Dec(n, k)) && AllDigits(whole) && ValueOf(whole) == n * Power10(k)
    ensures Denote(whole, "", None, negative, n, k)
  {
    hide Canon, Power10;
    NoFraction("");
    SignedTimes(negative, n, Power10(k));
    CanonScaled(Signed(negative, n), 0, k);
    SignedIsCanonical(negative, n, k);
    assert ValueOf(whole) * Power10(0) + ValueOf("") == n * Power10(k);
  }

  lemma DenoteSame(negative: bool, n: nat, e: int, whole: string, fraction: string, scale: Option<Exponent>)
    requires Canonical(Dec(n, e)) && AllDigits(whole) && AllDigits(fraction)
    requires ValueOf(whole) * Power10(|fraction|) + ValueOf(fraction) == n && ScaleOf(scale) - |fraction| == e
    ensures Denote(whole, fraction, scale, negative, n, e)
  {
    hide Canon;
    SignedIsCanonical(negative, n, e);
  }

  lemma WholeParts(negative: bool, n: nat, e: nat)
    requires Canonical(Dec(n, e))
    ensures var whole := PrintNat(n) + Zeros(e);
      AllDigits(whole) && Denote(whole, "", None, negative, n, e) && whole == Token(false, whole, "", None)
  {
    hide Canon, Denote;
    var digits := PrintNat(n);
    ValueOfNat(n);
    ValueOfZeros(e);
    ValueOfJoin(digits, Zeros(e));
    NoFraction("");
    DenoteScaled(negative, n, e, digits + Zeros(e));
    assert "" + (digits + Zeros(e) + (FractionText("") + ScaleText(None))) == digits + Zeros(e);
  }

  lemma SplitParts(negative: bool, n: nat, e: int, at: nat, scale: Option<Exponent>)
    requires Canonical(Dec(n, e)) && 0 < at <= |PrintNat(n)|
    requires ScaleOf(scale) - (|PrintNat(n)| - at) == e
    ensures var digits := PrintNat(n);
      && AllDigits(digits[..at]) && AllDigits(digits[at..])
      && Denote(digits[..at], digits[at..], scale, negative, n, e)
  {
    hide Canon, Denote;
    var digits := PrintNat(n);
    ValueOfNat(n);
    assert digits == digits[..at] + digits[at..];
    ValueOfJoin(digits[..at], digits[at..]);
    DenoteSame(negative, n, e, digits[..at], digits[at..], scale);
  }

  lemma SmallParts(negative: bool, n: nat, e: int, zeros: nat)
    requires Canonical(Dec(n, e)) && 0 - (zeros + |PrintNat(n)|) == e
    ensures var fraction := Zeros(zeros) + PrintNat(n);
      AllDigits("0") && AllDigits(fraction) && Denote("0", fraction, None, negative, n, e)
  {
    hide Canon, Denote;
    var digits := PrintNat(n);
    var fraction := Zeros(zeros) + digits;
    ValueOfNat(n);
    ValueOfZeros(zeros);
    ValueOfJoin(Zeros(zeros), digits);
    ValueOfZeros(1);
    assert Zeros(1) == "0";
    NothingTimes(Power10(|digits|));
    NothingTimes(Power10(|fraction|));
    DenoteSame(negative, n, e, "0", fraction, None);
  }

  lemma NothingTimes(p: nat)
    ensures 0 * p == 0
  {
  }

  lemma TokenText(whole: string, fraction: string, scale: Option<Exponent>)
    ensures Token(false, whole, fraction, scale) == whole + FractionText(fraction) + ScaleText(scale)
  {
    hide FractionText, ScaleText;
  }

  lemma PlacedSplit(n: nat, e: int, x: int)
    requires n != 0 && e < 0 && x == |PrintNat(n)| - 1 + e && 0 <= x < DIGITS
    ensures Placed(n, e) == Token(false, PrintNat(n)[..x + 1], PrintNat(n)[x + 1..], None)
  {
    hide PrintNat, Zeros, ExponentText, Token;
    var digits := PrintNat(n);
    TokenText(digits[..x + 1], digits[x + 1..], None);
    assert digits[..x + 1] + ("." + digits[x + 1..]) + "" == digits[..x + 1] + "." + digits[x + 1..];
  }

  lemma PlacedSmall(n: nat, e: int, x: int)
    requires n != 0 && x == |PrintNat(n)| - 1 + e && -4 <= x < 0
    ensures Placed(n, e) == Token(false, "0", Zeros(-x - 1) + PrintNat(n), None)
  {
    hide PrintNat, Zeros, ExponentText, Token;
    var digits := PrintNat(n);
    TokenText("0", Zeros(-x - 1) + digits, None);
    SmallText(Zeros(-x - 1), digits);
  }

  lemma SmallText(zeros: string, digits: string)
    requires digits != ""
    ensures "0" + FractionText(zeros + digits) + ScaleText(None) == "0." + zeros + digits
  {
    var zero, point := "0", ".";
    assert zero + point == "0.";
    assert zero + (point + (zeros + digits)) + "" == zero + point + zeros + digits;
  }

  lemma PlacedScientific(n: nat, e: int, x: int)
    requires n != 0 && x == |PrintNat(n)| - 1 + e && !(-4 <= x < DIGITS)
    ensures Placed(n, e) == Token(false, PrintNat(n)[..1], PrintNat(n)[1..], Some(Printed(x)))
  {
    hide PrintNat, Zeros, ExponentText, Token, FractionText, ScaleText;
    TokenText(PrintNat(n)[..1], PrintNat(n)[1..], Some(Printed(x)));
    SciText(PrintNat(n), x);
  }

  lemma PlacedWhole(n: nat, e: int)
    requires e >= 0 && if n == 0 then e == 0 else |PrintNat(n)| - 1 + e < DIGITS
    ensures Placed(n, e) == PrintNat(n) + Zeros(e)
  {
    assert n == 0 ==> PrintNat(n) + Zeros(0) == "0";
  }

  /** The parts of the text of n * 10^e. */
  lemma PlacedParts(negative: bool, n: nat, e: int) returns (whole: string, fraction: string, scale: Option<Exponent>)
    requires Canonical(Dec(n, e)) && n < LIMIT
    ensures AllDigits(whole) && whole != "" && AllDigits(fraction)
    ensures Placed(n, e) == Token(false, whole, fraction, scale)
    ensures Denote(whole, fraction, scale, negative, n, e)
  {
    hide *;
    CanonicalZero(n, e);
    NoDigits();
    var digits := PrintNat(n);
    var x := |digits| - 1 + e;
    if n == 0 || (-4 <= x < DIGITS && e >= 0) {
      whole, fraction, scale := digits + Zeros(e), "", None;
      WholeParts(negative, n, e);
      PlacedWhole(n, e);
    } else if 0 <= x < DIGITS {
      whole, fraction, scale := digits[..x + 1], digits[x + 1..], None;
      SplitParts(negative, n, e, x + 1, None) by { NoScale(); }
      PlacedSplit(n, e, x);
    } else if -4 <= x < DIGITS {
      whole, fraction, scale := "0", Zeros(-x - 1) + digits, None;
      SmallParts(negative, n, e, -x - 1);
      PlacedSmall(n, e, x);
    } else {
      whole, fraction, scale := digits[..1], digits[1..], Some(Printed(x));
      SplitParts(negative, n, e, 1, Some(Printed(x))) by { SomeScale(x); }
      PlacedScientific(n, e, x);
    }
  }

  lemma CanonicalZero(n: nat, e: int)
    requires Canonical(Dec(n, e))
    ensures n == 0 ==> e == 0
  {
  }

  lemma NoScale()
    ensures ScaleOf(None) == 0
  {
  }

  lemma SomeScale(x: int)
    ensures ScaleOf(Some(Printed(x))) == x
  {
  }

  lemma SciText(digits: string, x: int)
    requires digits != ""
    ensures digits[..1] + FractionText(digits[1..]) + ScaleText(Some(Printed(x)))
         == digits[..1] + (if |digits| > 1 then "." + digits[1..] else "") + "e" + ExponentText(x)
  {
    hide ExponentText;
  }

  lemma NoDigits()
    ensures AllDigits("")
  {
  }

  /** A printed number, in front of anything that cannot continue it, is read as what was printed:
      the number with sixteen significant digits that is nearest. */
  lemma NumberRead(s: string, i: nat, d: Decimal)
    requires At(s, i, PrintNumber(d)) && i + |PrintNumber(d)| < |s| && EndsNumber(s[i + |PrintNumber(d)|])
    ensures ScanDecimal(s, i) == Read(true, Rounded(d), i + |PrintNumber(d)|)
    ensures IsDigit(s[i]) || s[i] == '-'
  {
    hide *;
    var whole, fraction, scale := NumberParts(d);
    TokenRead(s, i, Rounded(d).mantissa < 0, whole, fraction, scale);
  }

  lemma NumberParts(d: Decimal) returns (whole: string, fraction: string, scale: Option<Exponent>)
    ensures AllDigits(whole) && whole != "" && AllDigits(fraction)
    ensures PrintNumber(d) == Token(Rounded(d).mantissa < 0, whole, fraction, scale)
    ensures TokenValue(Rounded(d).mantissa < 0, whole, fraction, scale) == Rounded(d)
  {
    hide Placed, Rounded, Canon, ValueOf, Power10, FractionText, ScaleText, AllDigits;
    RoundedExactly(d);
    var t := Rounded(d);
    whole, fraction, scale := PlacedParts(t.mantissa < 0, Abs(t.mantissa), t.exponent);
    assert Dec(Signed(t.mantissa < 0, Abs(t.mantissa)), t.exponent) == t;
  }

  // How a printed number begins, and of what it consists

  predicate NumberChar(c: char) { IsDigit(c) || c == '-' || c == '+' || c == '.' || c == 'e' || c == 'E' }

  lemma TokenChars(negative: bool, whole: string, fraction: string, scale: Option<Exponent>)
    requires AllDigits(whole) && whole != "" && AllDigits(fraction)
    ensures var t := Token(negative, whole, fraction, scale);
      t != "" && (IsDigit(t[0]) || t[0] == '-') && forall k :: 0 <= k < |t| ==> NumberChar(t[k])
  {
    hide ExponentText;
  }

  lemma NumberChars(d: Decimal)
    ensures var t := PrintNumber(d);
      t != "" && (IsDigit(t[0]) || t[0] == '-') && forall k :: 0 <= k < |t| ==> NumberChar(t[k])
  {
    hide *;
    var whole, fraction, scale := NumberParts(d);
    TokenChars(Rounded(d).mantissa < 0, whole, fraction, scale);
  }
}
