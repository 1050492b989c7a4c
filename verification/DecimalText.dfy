/** Decimals as text: printing through a rational, parsing, and scaling with truncation. */
module DecimalText {
  import opened Bytes
  import opened Types

  const CH_PLUS: Byte := 43
  const CH_MINUS: Byte := 45
  const CH_DOT: Byte := 46
  const CH_0: Byte := 48

  // ---------------------------------------------------------------- numbers

  function Pow10(n: nat): (p: nat)
    ensures p >= 1
  {
    if n == 0 then 1 else 10 * Pow10(n - 1)
  }

  function Abs(n: int): nat {
    if n < 0 then -n else n
  }

  /** big.Int.Quo: truncates toward zero. */
  function Quo(n: int, d: int): int
    requires d > 0
  {
    if n < 0 then -(-n / d) else n / d
  }

  /** big.Int.Exp without a modulus: an exponent below zero gives 1. */
  function Exp10(n: int): int {
    if n < 0 then 1 else Pow10(n)
  }

  datatype RawRat = Rat(num: int, den: int)
  type Rat = r: RawRat | r.den > 0 witness Rat(0, 1)

  function Gcd(a: nat, b: nat): (g: nat)
    requires b > 0
    ensures g > 0
    decreases b
  {
    if a % b == 0 then b else Gcd(b, a % b)
  }

  lemma CommonFactor(g: int, x: int, q: int, y: int)
    ensures g * x * q + g * y == g * (x * q + y)
  {
    assert g * x * q == g * (x * q);
  }

  lemma {:induction false} GcdDivides(a: nat, b: nat)
    requires b > 0
    ensures var g := Gcd(a, b); a == g * (a / g) && b == g * (b / g)
    decreases b
  {
    if a % b == 0 {
      QuotientIs(b, b, 1, 0);
    } else {
      GcdDivides(b, a % b);
      var g := Gcd(b, a % b);
      CommonFactor(g, b / g, a / b, (a % b) / g);
      QuotientIs(a, g, b / g * (a / b) + (a % b) / g, 0);
    }
  }

  lemma NegatedFactor(g: int, x: int)
    ensures g * -x == -(g * x)
  {}

  lemma PositiveFactor(g: int, x: int)
    requires g > 0 && g * x > 0
    ensures x > 0
  {
    if x <= 0 {
      MulLe(g, 0, -x);
    }
  }

  lemma ReductionFactor(num: int, den: int)
    requires den > 0
    ensures var g := Gcd(Abs(num), den); g > 0 && den / g > 0 && num == g * Quo(num, g) && den == g * (den / g)
  {
    var g := Gcd(Abs(num), den);
    GcdDivides(Abs(num), den);
    PositiveFactor(g, den / g);
    if num < 0 {
      NegatedFactor(g, -num / g);
    }
  }

  /** A rational in lowest terms, as big.Rat keeps it. */
  function Reduced(num: int, den: int): (r: Rat)
    requires den > 0
  {
    var g := Gcd(Abs(num), den);
    ReductionFactor(num, den);
    Rat(Quo(num, g), den / g)
  }

  lemma AbsProduct(k: int, n: int)
    requires k >= 0
    ensures Abs(k * n) == k * Abs(n)
  {
    if n < 0 {
      assert k * n == -(k * -n);
      MulLe(k, 0, -n);
    } else {
      MulLe(k, 0, n);
    }
  }

  lemma MulLt(k: int, x: int, y: int)
    requires k > 0 && x < y
    ensures k * x < k * y
  {}

  lemma CancelDivision(k: int, n: int, d: int)
    requires k > 0 && d > 0 && n >= 0
    ensures k * d > 0 && (k * n) / (k * d) == n / d && (k * n) % (k * d) == k * (n % d)
  {
    var q, r := n / d, n % d;
    assert k * n == (k * d) * q + k * r;
    assert k * r < k * d by { MulLt(k, r, d); }
    QuotientIs(k * n, k * d, q, k * r);
  }

  lemma QuoCancels(k: int, n: int, d: int)
    requires k > 0 && d > 0
    ensures k * d > 0 && Quo(k * n, k * d) == Quo(n, d)
  {
    CancelDivision(k, Abs(n), d);
    if n < 0 {
      assert k * n == -(k * -n);
      MulLt(k, n, 0);
    } else {
      MulLe(k, 0, n);
    }
  }

  // ---------------------------------------------------------------- text

  predicate AllDigits(t: seq<Byte>) {
    forall i :: 0 <= i < |t| ==> CH_0 <= t[i] < CH_0 + 10
  }

  function Digits(n: nat): (t: seq<Byte>)
    ensures t != [] && AllDigits(t)
  {
    if n < 10 then [CH_0 + n] else Digits(n / 10) + [CH_0 + n % 10]
  }

  function NumberOf(t: seq<Byte>): (n: nat)
    requires AllDigits(t)
  {
    if t == [] then 0 else 10 * NumberOf(t[..|t| - 1]) + (t[|t| - 1] - CH_0)
  }

  function Zeros(n: nat): (t: seq<Byte>)
    ensures |t| == n && AllDigits(t)
  {
    seq(n, _ => CH_0)
  }

  function PadLeft(t: seq<Byte>, width: nat): (r: seq<Byte>)
    requires AllDigits(t)
    ensures AllDigits(r)
  {
    if |t| < width then Zeros(width - |t|) + t else t
  }

  function Signed(negative: bool, t: seq<Byte>): seq<Byte> {
    if negative then [CH_MINUS] + t else t
  }

  lemma {:induction false} DigitsNumber(n: nat)
    ensures NumberOf(Digits(n)) == n
    decreases n
  {
    if n >= 10 {
      DigitsNumber(n / 10);
      assert Digits(n)[..|Digits(n)| - 1] == Digits(n / 10);
    }
  }

  lemma {:induction false} DigitsHead(n: nat)
    ensures n > 0 ==> Digits(n)[0] != CH_0
    ensures n == 0 ==> Digits(n) == [CH_0]
    decreases n
  {
    if n >= 10 {
      DigitsHead(n / 10);
    }
  }

  lemma {:induction false} DigitsLength(n: nat, width: nat)
    requires n < Pow10(width)
    ensures width > 0 ==> |Digits(n)| <= width
    decreases n
  {
    if n >= 10 {
      DigitsLength(n / 10, width - 1);
    }
  }

  /** One more digit d behind x p + m, where p is the next lower power of ten. */
  lemma OneMoreDigit(x: nat, p: nat, m: nat, d: int)
    ensures 10 * (x * p + m) + d == x * (10 * p) + (10 * m + d)
  {
    assert x * (10 * p) == 10 * (x * p);
  }

  lemma {:induction false} NumberConcat(a: seq<Byte>, b: seq<Byte>)
    requires AllDigits(a) && AllDigits(b)
    ensures AllDigits(a + b) && NumberOf(a + b) == NumberOf(a) * Pow10(|b|) + NumberOf(b)
    decreases |b|
  {
    if b == [] {
      assert a + b == a;
    } else {
      var init := b[..|b| - 1];
      assert (a + b)[..|a + b| - 1] == a + init;
      NumberConcat(a, init);
      OneMoreDigit(NumberOf(a), Pow10(|init|), NumberOf(init), b[|b| - 1] - CH_0);
      assert NumberOf(a + b) == 10 * NumberOf(a + init) + (b[|b| - 1] - CH_0);
    }
  }

  lemma {:induction false} ZerosNumber(n: nat)
    ensures NumberOf(Zeros(n)) == 0
  {
    if n > 0 {
      assert Zeros(n)[..n - 1] == Zeros(n - 1);
      ZerosNumber(n - 1);
    }
  }

  lemma PadNumber(n: nat, width: nat)
    requires n < Pow10(width) && width > 0
    ensures |PadLeft(Digits(n), width)| == width && NumberOf(PadLeft(Digits(n), width)) == n
  {
    DigitsLength(n, width);
    DigitsNumber(n);
    var k := width - |Digits(n)|;
    ZerosNumber(k);
    NumberConcat(Zeros(k), Digits(n));
  }

  // ---------------------------------------------------------------- printing

  function BigRat(u: int, scale: int): (r: Rat) {
    if scale < 0 then Rat(u * Pow10(-scale), 1) else Reduced(u, Pow10(scale))
  }

  /** Adds one in the last place when the remainder is at least half the divisor. */
  function RoundUp(q: nat, f: nat, remainder: nat, den: nat, p: nat): (r: (nat, nat)) {
    if den <= 2 * remainder then (if f + 1 >= p then (q + 1, f + 1 - p) else (q, f + 1)) else (q, f)
  }

  lemma DivNonNegative(n: int, d: int)
    requires n >= 0 && d > 0
    ensures n / d >= 0
  {}

  /** The whole part and the prec decimals of a/den, the last one rounded half away from zero. */
  function RoundedDigits(a: nat, den: int, prec: nat): (r: (nat, nat))
    requires den > 0
  {
    var p := Pow10(prec);
    MulLe(p, 0, a % den);
    DivNonNegative(a, den);
    DivNonNegative(a % den * p, den);
    RoundUp(a / den, (a % den * p) / den, (a % den * p) % den, den, p)
  }

  function Render(negative: bool, q: nat, f: nat, prec: nat): (t: seq<Byte>) {
    Signed(negative, Digits(q)) + (if prec > 0 then [CH_DOT] + PadLeft(Digits(f), prec) else [])
  }

  /** big.Rat.FloatString. */
  function FloatString(r: Rat, prec: nat): (t: seq<Byte>) {
    if r.den == 1 then
      Signed(r.num < 0, Digits(Abs(r.num))) + (if prec > 0 then [CH_DOT] + Zeros(prec) else [])
    else
      var digits := RoundedDigits(Abs(r.num), r.den, prec);
      Render(r.num < 0, digits.0, digits.1, prec)
  }

  /** Decimal.String. */
  function String(u: int, scale: int): (t: seq<Byte>) {
    if scale < 0 then Signed(u < 0, Digits(Abs(u))) + Zeros(-scale)
    else FloatString(BigRat(u, scale), scale)
  }

  lemma RoundUpCancel(k: int, q: nat, f: nat, remainder: nat, den: nat, p: nat)
    requires k > 0
    ensures k * remainder >= 0 && k * den >= 0
    ensures RoundUp(q, f, k * remainder, k * den, p) == RoundUp(q, f, remainder, den, p)
  {
    MulLe(k, 0, remainder);
    MulLe(k, 0, den);
    if den <= 2 * remainder {
      MulLe(k, den, 2 * remainder);
    } else {
      MulLt(k, 2 * remainder, den);
    }
    assert k * (2 * remainder) == 2 * (k * remainder);
  }

  lemma RoundedDigitsCancel(k: int, a: nat, den: int, prec: nat)
    requires k > 0 && den > 0
    ensures k * den > 0 && k * a >= 0
    ensures RoundedDigits(k * a, k * den, prec) == RoundedDigits(a, den, prec)
  {
    var r, p := a % den, Pow10(prec);
    MulLe(k, 0, a);
    CancelDivision(k, a, den);
    assert (k * r) * p == k * (r * p);
    MulLe(p, 0, r);
    CancelDivision(k, r * p, den);
    RoundUpCancel(k, a / den, (r * p) / den, (r * p) % den, den, p);
  }

  lemma WholeText(negative: bool, n: nat, prec: nat)
    ensures Render(negative, n, 0, prec)
            == Signed(negative, Digits(n)) + (if prec > 0 then [CH_DOT] + Zeros(prec) else [])
  {
    assert Digits(0) == [CH_0];
    if prec > 0 {
      assert PadLeft([CH_0], prec) == Zeros(prec);
    }
  }

  lemma WholeDigits(a: nat, prec: nat)
    ensures RoundedDigits(a, 1, prec) == (a, 0)
  {
    assert a % 1 == 0;
  }

  /** Printing a whole number takes the same digits as printing any other fraction. */
  lemma FloatStringUniform(r: Rat, prec: nat)
    ensures var digits := RoundedDigits(Abs(r.num), r.den, prec);
            FloatString(r, prec) == Render(r.num < 0, digits.0, digits.1, prec)
  {
    if r.den == 1 {
      WholeDigits(Abs(r.num), prec);
      WholeText(r.num < 0, Abs(r.num), prec);
    }
  }

  /** The printed text does not depend on how far the fraction was reduced. */
  lemma FloatStringReduced(num: int, den: int, prec: nat)
    requires den > 0
    ensures var digits := RoundedDigits(Abs(num), den, prec);
            FloatString(Reduced(num, den), prec) == Render(num < 0, digits.0, digits.1, prec)
  {
    ReductionFactor(num, den);
    var g, r := Gcd(Abs(num), den), Reduced(num, den);
    FloatStringUniform(r, prec);
    AbsProduct(g, r.num);
    RoundedDigitsCancel(g, Abs(r.num), r.den, prec);
    if r.num < 0 { MulLt(g, r.num, 0); } else { MulLe(g, 0, r.num); }
  }

  /** With as many decimals as the scale, nothing is rounded. */
  lemma ExactDigits(a: nat, scale: nat)
    ensures RoundedDigits(a, Pow10(scale), scale) == (a / Pow10(scale), a % Pow10(scale))
  {
    var p := Pow10(scale);
    var r := a % p;
    QuotientIs(r * p, p, r, 0);
  }

  lemma StringIs(u: int, scale: nat)
    ensures Abs(u) / Pow10(scale) >= 0
    ensures String(u, scale) == Render(u < 0, Abs(u) / Pow10(scale), Abs(u) % Pow10(scale), scale)
  {
    DivNonNegative(Abs(u), Pow10(scale));
    FloatStringReduced(u, Pow10(scale), scale);
    ExactDigits(Abs(u), scale);
  }

  // ---------------------------------------------------------------- parsing

  function DotIndex(t: seq<Byte>): (i: nat)
    ensures i <= |t|
    ensures i < |t| ==> t[i] == CH_DOT
  {
    if t == [] || t[0] == CH_DOT then 0 else 1 + DotIndex(t[1..])
  }

  lemma {:induction false} DotAfterDigits(a: seq<Byte>, b: seq<Byte>)
    requires AllDigits(a) && (b == [] || b[0] == CH_DOT)
    ensures DotIndex(a + b) == |a|
    decreases |a|
  {
    if a == [] {
      assert a + b == b;
    } else {
      assert (a + b)[1..] == a[1..] + b;
      DotAfterDigits(a[1..], b);
    }
  }

  datatype Mantissa = Mantissa(number: nat, decimals: nat)

  function MantissaOf(whole: seq<Byte>, frac: seq<Byte>): (m: Option<Mantissa>) {
    if !AllDigits(whole) || !AllDigits(frac) || whole + frac == [] then None
    else
      NumberConcat(whole, frac);
      Some(Mantissa(NumberOf(whole + frac), |frac|))
  }

  /** Digits with at most one dot among them, at least one digit in all. */
  function ParseMantissa(body: seq<Byte>): (m: Option<Mantissa>) {
    var dot := DotIndex(body);
    MantissaOf(body[..dot], if dot < |body| then body[dot + 1..] else [])
  }

  /** big.Rat.SetString on plain decimal text: an optional sign, then digits with an optional dot. */
  function ParseDecimal(t: seq<Byte>): (r: Option<Rat>) {
    var signed := t != [] && (t[0] == CH_MINUS || t[0] == CH_PLUS);
    match ParseMantissa(if signed then t[1..] else t)
    case None => None
    case Some(m) =>
      var negative := signed && t[0] == CH_MINUS;
      Some(Reduced(if negative then -(m.number as int) else m.number, Pow10(m.decimals)))
  }

  /** decimalFromString: text that does not parse counts as zero. */
  function DecimalFromString(t: seq<Byte>, scale: int): (d: (int, int)) {
    match ParseDecimal(t)
    case None => (0, scale)
    case Some(r) =>
      var product := Reduced(r.num * Exp10(scale), r.den);
      (Quo(product.num, product.den), scale)
  }

  lemma SplitAtDot(whole: seq<Byte>, frac: seq<Byte>, tail: seq<Byte>)
    requires whole != []
    requires tail == [CH_DOT] + frac || (tail == [] && frac == [])
    ensures (whole + tail)[0] == whole[0] && (whole + tail)[..|whole|] == whole
    ensures (if |whole| < |whole + tail| then (whole + tail)[|whole| + 1..] else []) == frac
  {}

  lemma MantissaOfDigits(whole: seq<Byte>, frac: seq<Byte>)
    requires AllDigits(whole) && AllDigits(frac) && whole != []
    ensures MantissaOf(whole, frac) == Some(Mantissa(NumberOf(whole) * Pow10(|frac|) + NumberOf(frac), |frac|))
  {
    NumberConcat(whole, frac);
    assert |whole + frac| > 0;
  }

  lemma ParseMantissaPrinted(whole: seq<Byte>, frac: seq<Byte>, tail: seq<Byte>, n: nat)
    requires AllDigits(whole) && AllDigits(frac) && whole != []
    requires tail == [CH_DOT] + frac || (tail == [] && frac == [])
    requires n == NumberOf(whole) * Pow10(|frac|) + NumberOf(frac)
    ensures whole + tail != [] && CH_0 <= (whole + tail)[0] < CH_0 + 10
    ensures ParseMantissa(whole + tail) == Some(Mantissa(n, |frac|))
  {
    DotAfterDigits(whole, tail);
    SplitAtDot(whole, frac, tail);
    var body := whole + tail;
    var dot := |whole|;
    assert MantissaOf(body[..dot], if dot < |body| then body[dot + 1..] else []) == MantissaOf(whole, frac);
    MantissaOfDigits(whole, frac);
  }

  lemma MinusInFront(body: seq<Byte>)
    ensures Signed(true, body) != [] && Signed(true, body)[0] == CH_MINUS && Signed(true, body)[1..] == body
  {}

  lemma ParseSigned(negative: bool, body: seq<Byte>, m: Mantissa)
    requires body != [] && CH_0 <= body[0] < CH_0 + 10
    requires ParseMantissa(body) == Some(m)
    ensures ParseDecimal(Signed(negative, body))
            == Some(Reduced(if negative then -(m.number as int) else m.number, Pow10(m.decimals)))
  {
    if negative {
      MinusInFront(body);
    }
  }

  lemma SignedAppend(negative: bool, whole: seq<Byte>, tail: seq<Byte>)
    ensures Signed(negative, whole) + tail == Signed(negative, whole + tail)
  {
    assert ([CH_MINUS] + whole) + tail == [CH_MINUS] + (whole + tail);
  }

  /** Text in the printer's shape parses to sign, whole part and decimals. */
  lemma ParseRendered(negative: bool, whole: seq<Byte>, frac: seq<Byte>, tail: seq<Byte>, n: nat)
    requires AllDigits(whole) && AllDigits(frac) && whole != []
    requires tail == [CH_DOT] + frac || (tail == [] && frac == [])
    requires n == NumberOf(whole) * Pow10(|frac|) + NumberOf(frac)
    ensures ParseDecimal(Signed(negative, whole) + tail)
            == Some(Reduced(if negative then -(n as int) else n, Pow10(|frac|)))
  {
    ParseMantissaPrinted(whole, frac, tail, n);
    SignedAppend(negative, whole, tail);
    var body := whole + tail;
    ParseSigned(negative, body, Mantissa(n, |frac|));
  }

  lemma Recompose(a: nat, p: nat)
    requires p > 0
    ensures a / p >= 0 && (a / p) * p + a % p == a
  {
    DivNonNegative(a, p);
  }

  lemma ParseFixed(u: int, scale: nat)
    ensures ParseDecimal(String(u, scale)) == Some(Reduced(u, Pow10(scale)))
  {
    StringIs(u, scale);
    var p := Pow10(scale);
    Recompose(Abs(u), p);
    var q, r := Abs(u) / p, Abs(u) % p;
    DigitsNumber(q);
    if scale > 0 {
      PadNumber(r, scale);
      var frac := PadLeft(Digits(r), scale);
      ParseRendered(u < 0, Digits(q), frac, [CH_DOT] + frac, Abs(u));
    } else {
      ParseRendered(u < 0, Digits(q), [], [], Abs(u));
    }
  }

  lemma ReducedWhole(u: int, a: nat, p: nat)
    requires a == Abs(u) && p > 0
    ensures Reduced(if u < 0 then -(a * p) else a * p, 1) == Rat(u * p, 1)
  {
    assert u * p == if u < 0 then -(a * p) else a * p;
    ReductionFactor(u * p, 1);
    assert Abs(u * p) % 1 == 0;
    assert Gcd(Abs(u * p), 1) == 1;
  }

  lemma ParseScaledUp(u: int, zeros: nat)
    requires zeros > 0
    ensures ParseDecimal(String(u, -(zeros as int))) == Some(Rat(u * Pow10(zeros), 1))
  {
    var digits := Digits(Abs(u));
    DigitsNumber(Abs(u));
    ZerosNumber(zeros);
    NumberConcat(digits, Zeros(zeros));
    ParseRendered(u < 0, digits + Zeros(zeros), [], [], Abs(u) * Pow10(zeros));
    SignedAppend(u < 0, digits, Zeros(zeros));
    assert String(u, -(zeros as int)) == Signed(u < 0, digits + Zeros(zeros)) + [];
    ReducedWhole(u, Abs(u), Pow10(zeros));
  }

  /** Printing and parsing name the same fraction; for both signs of the scale that is the decimal's value. */
  lemma PrintedTextDenotesDecimal(u: int, scale: int)
    ensures ParseDecimal(String(u, scale)) == Some(BigRat(u, scale))
  {
    if scale >= 0 {
      ParseFixed(u, scale);
    } else {
      ParseScaledUp(u, -scale);
    }
  }

  lemma Regroup(a: int, b: int, c: int)
    ensures (a * b) * c == a * (b * c)
  {}

  lemma QuoOfReduced(num: int, den: int)
    requires den > 0
    ensures Quo(Reduced(num, den).num, Reduced(num, den).den) == Quo(num, den)
  {
    ReductionFactor(num, den);
    QuoCancels(Gcd(Abs(num), den), Reduced(num, den).num, Reduced(num, den).den);
  }

  /** Scaling needs no lowest terms: it is the truncated quotient of the unreduced fraction. */
  lemma ScaledQuotient(num: int, den: int, mul: int)
    requires den > 0
    ensures var r := Reduced(num, den); var product := Reduced(r.num * mul, r.den);
            Quo(product.num, product.den) == Quo(num * mul, den)
  {
    var r := Reduced(num, den);
    QuoOfReduced(r.num * mul, r.den);
    ReductionFactor(num, den);
    var g := Gcd(Abs(num), den);
    Regroup(g, r.num, mul);
    QuoCancels(g, r.num * mul, r.den);
  }

  lemma TruncatedQuotient(m: int, den: int)
    requires den > 0
    ensures var u := Quo(m, den);
            && Abs(u) * den <= Abs(m) < (Abs(u) + 1) * den
            && (u > 0 ==> m > 0) && (u < 0 ==> m < 0)
  {
    var q, r := Abs(m) / den, Abs(m) % den;
    assert Abs(m) == q * den + r;
    DivNonNegative(Abs(m), den);
  }

  /** Truncation toward zero: the result is within one unit below the magnitude, with the sign of the number. */
  lemma ScalingTruncates(num: int, den: int, scale: nat)
    requires den > 0
    ensures var r := Reduced(num, den); var product := Reduced(r.num * Exp10(scale), r.den);
            var u := Quo(product.num, product.den);
            && Abs(u) * den <= Abs(num) * Pow10(scale) < (Abs(u) + 1) * den
            && (u > 0 ==> num > 0) && (u < 0 ==> num < 0)
  {
    ScaledQuotient(num, den, Exp10(scale));
    var p := Pow10(scale);
    var m := num * p;
    if num < 0 {
      assert m == -(-num * p);
      MulLe(p, 0, -num);
    } else {
      MulLe(p, 0, num);
    }
    assert Abs(m) == Abs(num) * p;
    TruncatedQuotient(m, den);
  }

  lemma ExactQuotient(u: int, p: int)
    requires p > 0
    ensures Quo(u * p, p) == u
  {
    QuoCancels(p, u, 1);
    assert p * u == u * p && p * 1 == p;
  }

  lemma GrowsByTen(u: int, p: int)
    requires p >= 10
    ensures u * p == u <==> u == 0
  {
    if u > 0 { MulLe(u, 10, p); }
    if u < 0 { MulLe(-u, 10, p); }
  }

  /** A printed decimal parses back at its own scale exactly when the scale is not negative or the number is zero. */
  lemma PrintParse(u: int, scale: int)
    ensures DecimalFromString(String(u, scale), scale) == (u, scale) <==> scale >= 0 || u == 0
  {
    PrintedTextDenotesDecimal(u, scale);
    if scale >= 0 {
      ScaledQuotient(u, Pow10(scale), Pow10(scale));
      ExactQuotient(u, Pow10(scale));
    } else {
      var m := u * Pow10(-scale);
      ScaledQuotient(m, 1, 1);
      ReducedWhole(u, Abs(u), Pow10(-scale));
      assert m == if u < 0 then -(Abs(u) * Pow10(-scale)) else Abs(u) * Pow10(-scale);
      assert Quo(m, 1) == m;
      GrowsByTen(u, Pow10(-scale));
    }
  }

  // ---------------------------------------------------------------- every text

  /** t is a sign or none, digits, and perhaps a dot with further digits; there is a digit somewhere. */
  predicate Spelled(t: seq<Byte>, sign: seq<Byte>, whole: seq<Byte>, frac: seq<Byte>, dotted: bool) {
    && (sign == [] || sign == [CH_PLUS] || sign == [CH_MINUS])
    && AllDigits(whole) && AllDigits(frac) && AllDigits(whole + frac) && whole + frac != []
    && (frac != [] ==> dotted)
    && t == sign + (whole + if dotted then [CH_DOT] + frac else [])
  }

  lemma BodySpelled(body: seq<Byte>, whole: seq<Byte>, frac: seq<Byte>, dotted: bool)
    requires AllDigits(whole) && AllDigits(frac) && whole + frac != [] && (frac != [] ==> dotted)
    requires body == whole + if dotted then [CH_DOT] + frac else []
    ensures AllDigits(whole + frac) && ParseMantissa(body) == Some(Mantissa(NumberOf(whole + frac), |frac|))
    ensures body != [] && body[0] != CH_PLUS && body[0] != CH_MINUS
  {
    var tail := if dotted then [CH_DOT] + frac else [];
    DotAfterDigits(whole, tail);
    NumberConcat(whole, frac);
    assert body[..|whole|] == whole;
    assert (if |whole| < |body| then body[|whole| + 1..] else []) == frac;
  }

  /** A sign in front of digits or a dot is taken off. */
  lemma ParseSign(t: seq<Byte>, sign: seq<Byte>, body: seq<Byte>, m: Mantissa)
    requires sign == [] || sign == [CH_PLUS] || sign == [CH_MINUS]
    requires t == sign + body && body != [] && body[0] != CH_PLUS && body[0] != CH_MINUS
    requires ParseMantissa(body) == Some(m)
    ensures ParseDecimal(t)
            == Some(Reduced(if sign == [CH_MINUS] then -(m.number as int) else m.number, Pow10(m.decimals)))
  {
    if sign == [] {
      assert t == body;
    } else {
      assert t[0] == sign[0] && t[1..] == body;
    }
  }

  function Numerator(sign: seq<Byte>, n: nat): int {
    if sign == [CH_MINUS] then -(n as int) else n
  }

  /** A number that is spelled like this is parsed as the fraction it spells. */
  lemma SpelledParses(t: seq<Byte>, sign: seq<Byte>, whole: seq<Byte>, frac: seq<Byte>, dotted: bool)
    requires Spelled(t, sign, whole, frac, dotted)
    ensures ParseDecimal(t) == Some(Reduced(Numerator(sign, NumberOf(whole + frac)), Pow10(|frac|)))
  {
    var body := whole + if dotted then [CH_DOT] + frac else [];
    BodySpelled(body, whole, frac, dotted);
    ParseSign(t, sign, body, Mantissa(NumberOf(whole + frac), |frac|));
  }

  lemma ParsedBody(body: seq<Byte>) returns (whole: seq<Byte>, frac: seq<Byte>, dotted: bool)
    requires ParseMantissa(body).Some?
    ensures AllDigits(whole) && AllDigits(frac) && whole + frac != [] && (frac != [] ==> dotted)
    ensures body == whole + if dotted then [CH_DOT] + frac else []
  {
    var dot := DotIndex(body);
    dotted := dot < |body|;
    whole, frac := body[..dot], if dotted then body[dot + 1..] else [];
  }

  /** Nothing else is parsed. */
  lemma ParsedIsSpelled(t: seq<Byte>) returns (sign: seq<Byte>, whole: seq<Byte>, frac: seq<Byte>, dotted: bool)
    requires ParseDecimal(t).Some?
    ensures Spelled(t, sign, whole, frac, dotted)
  {
    sign := if t != [] && (t[0] == CH_MINUS || t[0] == CH_PLUS) then t[..1] else [];
    var body := t[|sign|..];
    whole, frac, dotted := ParsedBody(body);
    NumberConcat(whole, frac);
    assert t == sign + body;
  }

  lemma Truncates(num: int, den: int, mul: int)
    requires den > 0 && mul > 0
    ensures var r := Reduced(num, den); var product := Reduced(r.num * mul, r.den);
            var u := Quo(product.num, product.den);
            && Abs(u) * den <= Abs(num) * mul < (Abs(u) + 1) * den
            && (u > 0 ==> num > 0) && (u < 0 ==> num < 0)
  {
    ScaledQuotient(num, den, mul);
    AbsProduct(mul, num);
    TruncatedQuotient(num * mul, den);
    if num < 0 { MulLt(mul, num, 0); } else { MulLe(mul, 0, num); }
  }

  /** u is n mul / den, truncated toward zero, with the sign. */
  predicate TruncatedTo(u: int, n: nat, mul: int, den: int, negative: bool) {
    && Abs(u) * den <= n * mul < (Abs(u) + 1) * den
    && (u > 0 ==> !negative) && (u < 0 ==> negative)
  }

  lemma ScaledFraction(t: seq<Byte>, scale: int, n: nat, den: int, negative: bool)
    requires den > 0 && ParseDecimal(t) == Some(Reduced(if negative then -(n as int) else n, den))
    ensures var d := DecimalFromString(t, scale);
            d.1 == scale && TruncatedTo(d.0, n, if scale < 0 then 1 else Pow10(scale), den, negative)
  {
    Truncates(if negative then -(n as int) else n, den, Exp10(scale));
  }

  /**
   * For every text that is a number: the unscaled value is the number times ten to the scale, truncated toward zero;
   * a negative scale counts as none.
   */
  lemma ScaledText(t: seq<Byte>, sign: seq<Byte>, whole: seq<Byte>, frac: seq<Byte>, dotted: bool, scale: int)
    requires Spelled(t, sign, whole, frac, dotted)
    ensures var d := DecimalFromString(t, scale);
            && d.1 == scale
            && TruncatedTo(d.0, NumberOf(whole + frac), if scale < 0 then 1 else Pow10(scale), Pow10(|frac|),
                           sign == [CH_MINUS])
  {
    SpelledParses(t, sign, whole, frac, dotted);
    ScaledFraction(t, scale, NumberOf(whole + frac), Pow10(|frac|), sign == [CH_MINUS]);
  }

  /** Any other text counts as zero. */
  lemma OtherText(t: seq<Byte>, scale: int)
    requires forall sign, whole, frac, dotted :: !Spelled(t, sign, whole, frac, dotted)
    ensures DecimalFromString(t, scale) == (0, scale)
  {
    if ParseDecimal(t).Some? {
      var sign, whole, frac, dotted := ParsedIsSpelled(t);
      assert false;
    }
  }

  // ---------------------------------------------------------------- notation

  /** Digits of n without a redundant zero in front. */
  predicate Plain(t: seq<Byte>, n: nat) {
    t != [] && AllDigits(t) && NumberOf(t) == n && (|t| > 1 ==> t[0] != CH_0)
  }

  /** A minus exactly in front of a negative number. */
  predicate SignedPlain(t: seq<Byte>, n: int) {
    if n < 0 then t != [] && t[0] == CH_MINUS && Plain(t[1..], -n) else Plain(t, n)
  }

  lemma PlainDigits(n: nat)
    ensures Plain(Digits(n), n)
  {
    DigitsNumber(n);
    DigitsHead(n);
  }

  lemma SignedDigits(n: int)
    ensures SignedPlain(Signed(n < 0, Digits(Abs(n))), n)
  {
    PlainDigits(Abs(n));
  }

  /** With a positive scale: whole part, dot, exactly scale decimals, and all digits together are the unscaled value. */
  predicate PointText(t: seq<Byte>, u: int, scale: nat) {
    var sign := if u < 0 then 1 else 0;
    var dot := |t| - scale - 1;
    && sign < dot && (u < 0 ==> t[0] == CH_MINUS) && t[dot] == CH_DOT
    && AllDigits(t[sign..dot]) && AllDigits(t[dot + 1..])
    && (dot > sign + 1 ==> t[sign] != CH_0)
    && AllDigits(t[sign..dot] + t[dot + 1..]) && NumberOf(t[sign..dot] + t[dot + 1..]) == Abs(u)
  }

  lemma PointParts(negative: bool, whole: seq<Byte>, frac: seq<Byte>)
    ensures var t := Signed(negative, whole) + ([CH_DOT] + frac);
            var sign := if negative then 1 else 0;
            var dot := |t| - |frac| - 1;
            && dot == sign + |whole| && t[dot] == CH_DOT && (negative ==> t[0] == CH_MINUS)
            && t[sign..dot] == whole && t[dot + 1..] == frac
            && (whole != [] ==> t[sign] == whole[0])
  {}

  lemma PointOf(u: int, whole: seq<Byte>, frac: seq<Byte>)
    requires whole != [] && AllDigits(whole) && AllDigits(frac) && (|whole| > 1 ==> whole[0] != CH_0)
    requires AllDigits(whole + frac) && NumberOf(whole + frac) == Abs(u)
    ensures PointText(Signed(u < 0, whole) + ([CH_DOT] + frac), u, |frac|)
  {
    PointParts(u < 0, whole, frac);
  }

  lemma PrintedPoint(u: int, scale: nat)
    requires scale > 0
    ensures PointText(String(u, scale), u, scale)
  {
    var p := Pow10(scale);
    StringIs(u, scale);
    Recompose(Abs(u), p);
    var q, r := Abs(u) / p, Abs(u) % p;
    var whole, frac := Digits(q), PadLeft(Digits(r), scale);
    PlainDigits(q);
    PadNumber(r, scale);
    NumberConcat(whole, frac);
    PointOf(u, whole, frac);
    assert String(u, scale) == Signed(u < 0, whole) + ([CH_DOT] + frac);
  }

  lemma PrintedWhole(u: int, zeros: nat)
    ensures var t := String(u, -(zeros as int));
            |t| - zeros > 0 && SignedPlain(t[..|t| - zeros], u) && t[|t| - zeros..] == Zeros(zeros)
  {
    SignedDigits(u);
    var digits := Signed(u < 0, Digits(Abs(u)));
    if zeros == 0 {
      StringIs(u, 0);
      assert digits + [] == digits;
    }
    assert String(u, -(zeros as int)) == digits + Zeros(zeros);
    SideBySide(digits, Zeros(zeros));
  }

  /** What String prints, as a reader of decimal notation sees it: the unscaled value with a point, or with zeros. */
  lemma PrintedNotation(u: int, scale: int)
    ensures var t := String(u, scale);
            if scale > 0 then PointText(t, u, scale)
            else |t| + scale > 0 && SignedPlain(t[..|t| + scale], u) && t[|t| + scale..] == Zeros(-scale)
  {
    if scale > 0 {
      PrintedPoint(u, scale);
    } else {
      PrintedWhole(u, -scale);
    }
  }

  lemma SmallDigits()
    ensures Digits(123) == [49, 50, 51] && Zeros(2) == [48, 48] && Pow10(2) == 100
  {
    assert Digits(1) == [49] && Digits(12) == Digits(1) + [50];
  }

  /** A negative scale is not applied: 12300 at scale -2 becomes unscaled 12300 instead of 123. */
  lemma NegativeScaleExample()
    ensures String(123, -2) == [49, 50, 51, 48, 48]
    ensures DecimalFromString(String(123, -2), -2) == (12300, -2)
  {
    SmallDigits();
    ParseScaledUp(123, 2);
    ScaledQuotient(12300, 1, 1);
    ReducedWhole(123, 123, 100);
  }
}
