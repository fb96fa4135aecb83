/**
  The price oracle's arithmetic: decimal strings read as fractions (price_service.cpp) and
  the mean of two fractions (combined_provider.cpp), in 64-bit signed integers. Leaving
  their range is undefined in the source; here it is an outcome of its own.
 */
module Price {
  import opened Arith
  import opened Seqs
  import opened Wrappers

  const MAX: int := 0x7FFF_FFFF_FFFF_FFFF

  predicate InRange(x: int)
  {
    -MAX - 1 <= x <= MAX
  }

  datatype Rational = Rational(num: int, den: int)

  // --- decimal strings ---

  datatype Parsed = Number(value: Rational) | NotDecimal | Overflow

  predicate Digits(s: string)
  {
    forall k :: 0 <= k < |s| ==> '0' <= s[k] <= '9'
  }

  function DigitsValue(s: string): nat
    requires Digits(s)
  {
    if s == "" then 0 else 10 * DigitsValue(s[..|s| - 1]) + (s[|s| - 1] - '0') as nat
  }

  /** The part before the first point. */
  function Whole(s: string): (w: string)
    ensures w <= s && '.' !in w && (w == s || s[|w|] == '.')
  {
    if s == "" || s[0] == '.' then "" else [s[0]] + Whole(s[1..])
  }

  /** The part after the first point. */
  function Fraction(s: string): string
  {
    if Whole(s) == s then "" else s[|Whole(s)| + 1..]
  }

  predicate IsDecimal(s: string)
  {
    Digits(Whole(s)) && Digits(Fraction(s))
  }

  /** The number a decimal string writes: its digits over the power of ten its fraction calls for. */
  function Written(s: string): (q: Rational)
    requires IsDecimal(s)
    ensures q.den > 0
  {
    Rational(DigitsValue(Whole(s) + Fraction(s)), Pow(10, |Fraction(s)|))
  }

  predicate Fits(q: Rational)
  {
    InRange(q.num) && InRange(q.den)
  }

  lemma {:induction false} DigitsValueBound(s: string)
    requires Digits(s)
    ensures DigitsValue(s) < Pow(10, |s|)
  {
    if s != "" {
      DigitsValueBound(s[..|s| - 1]);
    }
  }

  /** The whole part counts in units, the fraction in units of its last place. */
  lemma {:induction false} DigitsValueSplit(w: string, f: string)
    requires Digits(w) && Digits(f)
    ensures DigitsValue(w + f) == DigitsValue(w) * Pow(10, |f|) + DigitsValue(f)
  {
    hide Pow, DigitsValue;
    if f == "" {
      assert w + f == w;
      NoDigits();
    } else {
      var g, c := f[..|f| - 1], f[|f| - 1];
      DigitsValueSplit(w, g);
      assert f == g + [c] && w + f == w + g + [c];
      DigitsSnoc(g, c);
      DigitsSnoc(w + g, c);
      PowStep(|g|);
      TenfoldSum(DigitsValue(w), Pow(10, |g|), DigitsValue(g));
    }
  }

  lemma NoDigits()
    ensures DigitsValue("") == 0 && Pow(10, 0) == 1
  {
  }

  lemma TenfoldSum(x: int, p: int, y: int)
    ensures 10 * (x * p + y) == x * (10 * p) + 10 * y
  {
  }

  lemma {:induction false} WholeAppend(s: string, t: string)
    ensures Whole(s + t) == if Whole(s) == s then s + Whole(t) else Whole(s)
  {
    if s == "" {
      assert s + t == t;
    } else if s[0] != '.' {
      WholeAppend(s[1..], t);
      assert (s + t)[1..] == s[1..] + t;
    }
  }

  /** Reading on by one character. */
  lemma NextCharacter(s: string, c: char)
    ensures
      var seenDot := Whole(s) != s;
      if seenDot then Whole(s + [c]) == Whole(s) && Fraction(s + [c]) == Fraction(s) + [c]
      else if c == '.' then Whole(s + [c]) == s && Fraction(s + [c]) == ""
      else Whole(s + [c]) == s + [c] && Fraction(s + [c]) == ""
    ensures Whole(s + [c]) != s + [c] <==> Whole(s) != s || c == '.'
    ensures Whole(s) == s ==> Fraction(s) == ""
  {
    WholeAppend(s, [c]);
    if Whole(s) != s {
      var w := |Whole(s)|;
      assert (s + [c])[w + 1..] == s[w + 1..] + [c];
    }
  }

  /** One more digit: the value grows, and the denominator with it after the point. */
  lemma NextDigit(s: string, c: char)
    requires IsDecimal(s) && '0' <= c <= '9'
    ensures IsDecimal(s + [c])
    ensures Written(s + [c]).num == 10 * Written(s).num + (c - '0') as nat >= Written(s).num
    ensures Written(s + [c]).den == (if Whole(s) != s then 10 * Written(s).den else Written(s).den) >= Written(s).den
  {
    hide Whole, Fraction, Pow, DigitsValue, Digits;
    NextCharacter(s, c);
    OneDigit(c);
    var ds := Whole(s) + Fraction(s);
    DigitsJoin(Whole(s), Fraction(s));
    if Whole(s) != s {
      Regroup(Whole(s), Fraction(s), [c]);
      DigitsJoin(Fraction(s), [c]);
    } else {
      assert ds == s && s + [c] + "" == s + [c];
      DigitsJoin(s, [c]);
    }
    DigitsSnoc(ds, c);
    PowStep(|Fraction(s)|);
  }

  lemma OneDigit(c: char)
    requires '0' <= c <= '9'
    ensures Digits([c]) && Digits("")
  {
  }

  lemma DigitsJoin(a: string, b: string)
    requires Digits(a) && Digits(b)
    ensures Digits(a + b)
  {
  }

  lemma DigitsSnoc(ds: string, c: char)
    requires Digits(ds) && '0' <= c <= '9'
    ensures Digits(ds + [c]) && DigitsValue(ds + [c]) == 10 * DigitsValue(ds) + (c - '0') as nat
  {
    assert (ds + [c])[..|ds|] == ds;
  }

  lemma PowStep(n: nat)
    ensures Pow(10, n + 1) == 10 * Pow(10, n)
  {
  }

  lemma NextPoint(s: string)
    requires IsDecimal(s) && Whole(s) == s
    ensures IsDecimal(s + ['.']) && Written(s + ['.']) == Written(s)
  {
    NextCharacter(s, '.');
    assert s + "" == s;
  }

  /** What does not fit does not fit with more characters either. */
  lemma {:induction false} StaysTooLarge(s: string, t: string)
    requires IsDecimal(s) && !Fits(Written(s))
    ensures IsDecimal(s + t) ==> !Fits(Written(s + t))
    decreases |t|
  {
    if t == "" {
      assert s + t == s;
    } else {
      var c := t[0];
      assert s + t == (s + [c]) + t[1..];
      if '0' <= c <= '9' {
        NextDigit(s, c);
        StaysTooLarge(s + [c], t[1..]);
      } else if c == '.' && Whole(s) == s {
        NextPoint(s);
        StaysTooLarge(s + [c], t[1..]);
      } else {
        BadCharacter(s, c, t[1..]);
      }
    }
  }

  /** After an unexpected character nothing makes the string a decimal. */
  lemma BadCharacter(s: string, c: char, t: string)
    requires IsDecimal(s) && !('0' <= c <= '9') && !(c == '.' && Whole(s) == s)
    ensures !IsDecimal(s + [c] + t)
  {
    NextCharacter(s, c);
    WholeAppend(s + [c], t);
    var u := s + [c] + t;
    if Whole(s) != s {
      var w := |Whole(s)|;
      assert Whole(u) == Whole(s);
      assert u[w + 1..][|s| - w - 1] == c;
    } else {
      assert Whole(u)[|s|] == c;
    }
  }

  /** priceStringToRational up to the point where it gives up and falls back on floating point. */
  method PriceStringToRational(priceStr: string) returns (r: Parsed)
    ensures r.Number? <==> IsDecimal(priceStr) && Fits(Written(priceStr))
    ensures r.Number? ==> r.value == Written(priceStr)
    ensures r.NotDecimal? ==> !IsDecimal(priceStr)
    ensures r.Overflow? ==> !(IsDecimal(priceStr) && Fits(Written(priceStr)))
  {
    hide DigitsValue, Whole, Fraction, IsDecimal, Written;
    var numerator, denominator, seenDot := 0, 1, false;
    NothingYet();
    var i := 0;
    while i < |priceStr|
      invariant 0 <= i <= |priceStr|
      invariant IsDecimal(priceStr[..i]) && Written(priceStr[..i]) == Rational(numerator, denominator)
      invariant Fits(Rational(numerator, denominator))
      invariant seenDot <==> Whole(priceStr[..i]) != priceStr[..i]
    {
      var c := priceStr[i];
      ghost var s, t := priceStr[..i], priceStr[i + 1..];
      assert priceStr[..i + 1] == s + [c] && priceStr == s + [c] + t;
      NextCharacter(s, c);
      if '0' <= c <= '9' {
        NextDigit(s, c);
        numerator := numerator * 10 + (c - '0') as int;
        if seenDot {
          denominator := denominator * 10;
        }
        if !InRange(numerator) || !InRange(denominator) {
          StaysTooLarge(s + [c], t);
          return Overflow;
        }
      } else if c == '.' && !seenDot {
        NextPoint(s);
        seenDot := true;
      } else {
        BadCharacter(s, c, t);
        return NotDecimal;
      }
      i := i + 1;
    }
    assert priceStr[..i] == priceStr;
    return Number(Rational(numerator, denominator));
  }

  lemma NothingYet()
    ensures IsDecimal("") && Written("") == Rational(0, 1) && Whole("") == ""
  {
    assert Whole("") + Fraction("") == "";
  }

  // --- the mean ---

  function GcdOf(a: nat, b: nat): nat
    decreases b
  {
    if b == 0 then a else GcdOf(b, a % b)
  }

  predicate Divides(d: nat, n: nat)
  {
    d > 0 && n % d == 0
  }

  lemma DividesCombination(d: nat, x: nat, k: nat, y: nat)
    requires Divides(d, x)
    ensures Divides(d, k * x + y) <==> Divides(d, y)
  {
    var m := k * (x / d);
    assert k * x == d * m by {
      assert x == d * (x / d);
    }
    ModAddMultiple(y, d, m);
  }

  /** It divides both, and everything that divides both divides it. */
  lemma {:induction false} GcdIsGreatestCommonDivisor(a: nat, b: nat, d: nat)
    requires a > 0 || b > 0
    ensures Divides(GcdOf(a, b), a) && Divides(GcdOf(a, b), b)
    ensures Divides(d, a) && Divides(d, b) ==> Divides(d, GcdOf(a, b))
    decreases b
  {
    if b != 0 {
      GcdIsGreatestCommonDivisor(b, a % b, d);
      DividesRemainder(GcdOf(a, b), a, b);
      DividesRemainder(d, a, b);
    }
  }

  lemma DividesRemainder(d: nat, a: nat, b: nat)
    requires b > 0
    ensures Divides(d, b) ==> (Divides(d, a) <==> Divides(d, a % b))
  {
    hide Divides;
    if Divides(d, b) {
      DividesCombination(d, b, a / b, a % b);
      assert a == (a / b) * b + a % b;
    }
  }

  lemma {:induction false} GcdSymmetric(a: nat, b: nat)
    ensures GcdOf(a, b) == GcdOf(b, a)
  {
    if a < b {
      GcdOfSmaller(a, b);
    } else if b < a {
      GcdOfSmaller(b, a);
    }
  }

  lemma {:induction false} GcdOfSmaller(a: nat, b: nat)
    requires a < b
    ensures GcdOf(a, b) == GcdOf(b, a)
  {
    DivModUnique(a, b, 0, a);
  }

  method Gcd(x: int, y: int) returns (g: int)
    requires x > 0 && y > 0
    ensures g == GcdOf(x, y) > 0
  {
    var a, b := x, y;
    while b != 0
      invariant a > 0 && b >= 0 && GcdOf(a, b) == GcdOf(x, y)
      decreases b
    {
      a, b := b, a % b;
    }
    g := a;
  }

  /** The sum of the two numbers over their least common denominator. */
  function Sum(p: Rational, q: Rational): int
    requires p.den > 0 && q.den > 0
  {
    var g := GcdOf(p.den, q.den);
    GcdIsGreatestCommonDivisor(p.den, q.den, 1);
    p.num * (q.den / g) + q.num * (p.den / g)
  }

  function CommonDenominator(p: Rational, q: Rational): int
    requires p.den > 0 && q.den > 0
  {
    GcdIsGreatestCommonDivisor(p.den, q.den, 1);
    p.den / GcdOf(p.den, q.den) * q.den
  }

  function Mean(p: Rational, q: Rational): Rational
    requires p.den > 0 && q.den > 0
  {
    var s, l := Sum(p, q), CommonDenominator(p, q);
    if s % 2 == 0 then Rational(s / 2, l) else Rational(s, 2 * l)
  }

  /** Every value the computation goes through is a 64-bit one. */
  predicate MeanFits(p: Rational, q: Rational)
    requires p.den > 0 && q.den > 0
  {
    var g := GcdOf(p.den, q.den);
    GcdIsGreatestCommonDivisor(p.den, q.den, 1);
    && InRange(p.num * (q.den / g)) && InRange(q.num * (p.den / g))
    && InRange(Sum(p, q)) && InRange(CommonDenominator(p, q)) && InRange(Mean(p, q).den)
  }

  /** With d1 = e1 g and d2 = e2 g, the common denominator is e1 e2 g. */
  lemma Cofactors(d1: nat, d2: nat) returns (g: nat, e1: nat, e2: nat)
    requires d1 > 0 && d2 > 0
    ensures g == GcdOf(d1, d2) > 0 && e1 == d1 / g > 0 && e2 == d2 / g > 0
    ensures d1 == e1 * g && d2 == e2 * g
    ensures e1 * d2 == e2 * d1 > 0
  {
    g := GcdOf(d1, d2);
    GcdIsGreatestCommonDivisor(d1, d2, 1);
    e1, e2 := d1 / g, d2 / g;
    assert d1 == e1 * g && d2 == e2 * g;
    assert e1 * (e2 * g) == e2 * (e1 * g);
    Positive(e1, g);
    Positive(e2, g);
    assert e1 * d2 > 0;
  }

  lemma Positive(e: int, g: int)
    requires e * g > 0 && g > 0
    ensures e > 0
  {
    if e <= 0 {
      MulMonotone(e, 0, g);
    }
  }

  /** The result is the arithmetic mean, exactly, with a positive denominator. */
  lemma MeanIsExact(p: Rational, q: Rational)
    requires p.den > 0 && q.den > 0
    ensures Mean(p, q).den > 0
    ensures Mean(p, q).num * (2 * p.den * q.den) == (p.num * q.den + q.num * p.den) * Mean(p, q).den
  {
    var g, e1, e2 := Cofactors(p.den, q.den);
    var s, l, m := Sum(p, q), CommonDenominator(p, q), Mean(p, q);
    assert l == e1 * q.den;
    assert m.num * (2 * l) == s * m.den by {
      if s % 2 == 0 {
        HalfTwice(s / 2, l);
      }
    }
    calc {
      m.num * (2 * p.den * q.den);
      { assert p.den * q.den == l * g by { ThreeFactors(e1, g, q.den); } TwiceOver(m.num, p.den, q.den, l, g); }
      m.num * (2 * l) * g;
      s * m.den * g;
      { SumTimes(p.num, e2, q.num, e1, g, m.den); }
      (p.num * (e2 * g) + q.num * (e1 * g)) * m.den;
    }
  }

  lemma HalfTwice(h: int, l: int)
    ensures h * (2 * l) == 2 * h * l
  {
  }

  lemma ThreeFactors(e: int, g: int, d: int)
    ensures (e * g) * d == (e * d) * g
  {
  }

  lemma TwiceOver(n: int, a: int, b: int, l: int, g: int)
    requires a * b == l * g
    ensures n * (2 * a * b) == n * (2 * l) * g
  {
    assert 2 * a * b == 2 * (a * b);
    assert n * (2 * (l * g)) == n * (2 * l) * g;
  }

  lemma SumTimes(a: int, x: int, b: int, y: int, g: int, d: int)
    ensures (a * x + b * y) * d * g == (a * (x * g) + b * (y * g)) * d
  {
    assert (a * x + b * y) * g == a * (x * g) + b * (y * g);
    assert (a * x + b * y) * d * g == (a * x + b * y) * g * d;
  }

  /** The mean lies between the two numbers. */
  lemma MeanIsBetween(p: Rational, q: Rational)
    requires p.den > 0 && q.den > 0 && p.num * q.den <= q.num * p.den
    ensures p.num * Mean(p, q).den <= Mean(p, q).num * p.den
    ensures Mean(p, q).num * q.den <= q.num * Mean(p, q).den
  {
    var m := Mean(p, q);
    MeanIsExact(p, q);
    var x, y := p.num * q.den, q.num * p.den;
    assert 2 * x * m.den <= (x + y) * m.den <= 2 * y * m.den by {
      MulMonotone(2 * x, x + y, m.den);
      MulMonotone(x + y, 2 * y, m.den);
    }
    assert 2 * q.den * (p.num * m.den) == 2 * x * m.den by { ThreeFactors(p.num, q.den, m.den); }
    assert 2 * q.den * (m.num * p.den) == m.num * (2 * p.den * q.den) by { Shuffle(m.num, p.den, q.den); }
    CancelPositive(2 * q.den, p.num * m.den, m.num * p.den);
    assert 2 * p.den * (q.num * m.den) == 2 * y * m.den by { ThreeFactors(q.num, p.den, m.den); }
    assert 2 * p.den * (m.num * q.den) == m.num * (2 * p.den * q.den) by { Shuffle(m.num, p.den, q.den); }
    CancelPositive(2 * p.den, m.num * q.den, q.num * m.den);
  }

  lemma MulMonotone(a: int, b: int, d: int)
    requires a <= b && d > 0
    ensures a * d <= b * d
  {
  }

  lemma Shuffle(n: int, a: int, b: int)
    ensures n * (2 * a * b) == 2 * b * (n * a) == 2 * a * (n * b)
  {
    assert n * (2 * a * b) == 2 * (n * a) * b;
    assert (n * a) * b == (n * b) * a;
  }

  lemma CancelPositive(c: int, a: int, b: int)
    requires c > 0 && c * a <= c * b
    ensures a <= b
  {
    assert (b + 1) * c == c * b + c;
    if b < a {
      MulMonotone(b + 1, a, c);
    }
  }

  /** Swapping the two sources changes nothing, not even the representation. */
  lemma MeanIsSymmetric(p: Rational, q: Rational)
    requires p.den > 0 && q.den > 0
    ensures Mean(p, q) == Mean(q, p) && (MeanFits(p, q) <==> MeanFits(q, p))
  {
    GcdSymmetric(p.den, q.den);
    var g, e1, e2 := Cofactors(p.den, q.den);
  }

  method ComputeMean(num1: int, denom1: int, num2: int, denom2: int) returns (r: Option<Rational>)
    requires denom1 > 0 && denom2 > 0 && InRange(num1) && InRange(num2) && InRange(denom1) && InRange(denom2)
    ensures r.Some? <==> MeanFits(Rational(num1, denom1), Rational(num2, denom2))
    ensures r.Some? ==> r.value == Mean(Rational(num1, denom1), Rational(num2, denom2))
  {
    ghost var g, e1, e2 := Cofactors(denom1, denom2);
    if denom1 == denom2 {
      assert g == denom1 && e1 == 1 && e2 == 1 by { SameDenominator(denom1); }
      var sum := num1 + num2;
      if !InRange(sum) {
        return None;
      }
      if sum % 2 == 0 {
        return Some(Rational(sum / 2, denom1));
      }
      return if InRange(denom1 * 2) then Some(Rational(sum, denom1 * 2)) else None;
    }
    var divisor := Gcd(denom1, denom2);
    var crossNum1, crossNum2 := num1 * (denom2 / divisor), num2 * (denom1 / divisor);
    var lcmDenom := denom1 / divisor * denom2;
    if !InRange(crossNum1) || !InRange(crossNum2) || !InRange(lcmDenom) || !InRange(crossNum1 + crossNum2) {
      return None;
    }
    if (crossNum1 + crossNum2) % 2 != 0 {
      return if InRange(lcmDenom * 2) then Some(Rational(crossNum1 + crossNum2, lcmDenom * 2)) else None;
    }
    return Some(Rational((crossNum1 + crossNum2) / 2, lcmDenom));
  }

  lemma SameDenominator(d: nat)
    requires d > 0
    ensures GcdOf(d, d) == d && d / d == 1
  {
    assert d % d == 0;
  }

  // --- the two together ---

  lemma {:induction false} PowMonotone(m: nat, n: nat)
    requires m <= n
    ensures Pow(10, m) <= Pow(10, n)
    decreases n
  {
    if m < n {
      PowMonotone(m, n - 1);
    }
  }

  lemma GcdOfPowers(m: nat, n: nat)
    requires m <= n
    ensures GcdOf(Pow(10, m), Pow(10, n)) == GcdOf(Pow(10, n), Pow(10, m)) == Pow(10, m)
    ensures Pow(10, n) / Pow(10, m) == Pow(10, n - m)
  {
    PowAdd(10, n - m, m);
    var a, b := Pow(10, m), Pow(10, n - m);
    DivModUnique(b * a, a, b, 0);
    GcdSymmetric(a, b * a);
  }

  lemma EighteenDigits()
    ensures Pow(10, 18) == 1_000_000_000_000_000_000
  {
    assert Pow(10, 3) == 1000;
    PowAdd(10, 3, 3);
    PowAdd(10, 6, 6);
    PowAdd(10, 12, 6);
  }

  /** At most a digits before the point and b after it. */
  predicate Within(s: string, a: nat, b: nat)
  {
    IsDecimal(s) && |Whole(s)| <= a && |Fraction(s)| <= b
  }

  lemma WithinFits(s: string, a: nat, b: nat)
    requires Within(s, a, b) && a + b <= 18
    ensures Fits(Written(s)) && 0 <= Written(s).num < Pow(10, a + |Fraction(s)|) <= Pow(10, 18)
  {
    hide Pow, Whole, Fraction;
    var f := |Fraction(s)|;
    DigitsValueBound(Whole(s) + Fraction(s));
    PowMonotone(|Whole(s)| + f, a + f);
    PowMonotone(a + f, 18);
    PowMonotone(f, 18);
    EighteenDigits();
  }

  lemma SmallMeanFits(p: Rational, q: Rational, x: int, y: int)
    requires p.den > 0 && q.den > 0 && GcdOf(p.den, q.den) > 0
    requires x == p.num * (q.den / GcdOf(p.den, q.den)) && y == q.num * (p.den / GcdOf(p.den, q.den))
    requires 0 <= x < 1_000_000_000_000_000_000 && 0 <= y < 1_000_000_000_000_000_000
    requires 0 < CommonDenominator(p, q) <= 1_000_000_000_000_000_000
    ensures MeanFits(p, q)
  {
    hide GcdOf, CommonDenominator;
    assert Sum(p, q) == x + y;
  }

  /** The mean with the shorter fraction first: cross products stay below 10^18. */
  lemma MeanOfDecimalsFits(p: Rational, q: Rational, a: nat, m: nat, n: nat)
    requires m <= n && a + n <= 18 && p.den == Pow(10, m) && q.den == Pow(10, n)
    requires 0 <= p.num < Pow(10, a + m) && 0 <= q.num < Pow(10, a + n)
    ensures MeanFits(p, q)
  {
    hide Pow, GcdOf, MeanFits;
    GcdOfPowers(m, n);
    SameDenominator(p.den);
    PowMonotone(a + n, 18);
    PowMonotone(n, 18);
    EighteenDigits();
    var k := Pow(10, n - m);
    ScaledBelow(p.num, a + m, n - m);
    assert CommonDenominator(p, q) == 1 * q.den;
    SmallMeanFits(p, q, p.num * k, q.num * 1);
  }

  lemma ScaledBelow(x: int, m: nat, n: nat)
    requires 0 <= x < Pow(10, m)
    ensures 0 <= x * Pow(10, n) < Pow(10, m + n)
  {
    hide Pow;
    var k := Pow(10, n);
    PowAdd(10, m, n);
    MulMonotone(0, x, k);
    MulMonotone(x + 1, Pow(10, m), k);
    assert (x + 1) * k == x * k + k;
  }

  /**
    Two price strings with at most a digits before and b after the point, a + b <= 18: both
    are read, no value leaves 64 bits on the way to their mean, and the mean is exact.
   */
  lemma DecimalsAverageExactly(s: string, t: string, a: nat, b: nat)
    requires Within(s, a, b) && Within(t, a, b) && a + b <= 18
    ensures Fits(Written(s)) && Fits(Written(t)) && MeanFits(Written(s), Written(t))
    ensures Mean(Written(s), Written(t)) == Mean(Written(t), Written(s))
    ensures
      var p, q, m := Written(s), Written(t), Mean(Written(s), Written(t));
      m.den > 0 && m.num * (2 * p.den * q.den) == (p.num * q.den + q.num * p.den) * m.den
  {
    hide Pow, Mean, MeanFits, Whole, Fraction;
    var p, q := Written(s), Written(t);
    WithinFits(s, a, b);
    WithinFits(t, a, b);
    MeanIsSymmetric(p, q);
    MeanIsExact(p, q);
    if |Fraction(s)| <= |Fraction(t)| {
      MeanOfDecimalsFits(p, q, a, |Fraction(s)|, |Fraction(t)|);
    } else {
      MeanOfDecimalsFits(q, p, a, |Fraction(t)|, |Fraction(s)|);
    }
  }

  // --- the combined provider ---

  datatype Answer = Answer(code: nat, price: Rational)
  datatype Combined = Failed(code: nat) | Priced(price: Rational) | Undefined

  /** The first provider that fails decides; otherwise the mean of the two prices. */
  method GetPriceAtTimestamp(answers: seq<Answer>) returns (r: Combined)
    requires |answers| == 2
    requires forall i :: 0 <= i < |answers| ==> answers[i].price.den > 0 && Fits(answers[i].price)
    ensures r.Failed? <==> exists i :: 0 <= i < |answers| && answers[i].code != 0
    ensures r.Failed? ==> exists i :: 0 <= i < |answers| && answers[i].code == r.code != 0
                                      && forall j :: 0 <= j < i ==> answers[j].code == 0
    ensures r.Priced? ==> r.price == Mean(answers[0].price, answers[1].price)
    ensures !r.Failed? ==> (r.Priced? <==> MeanFits(answers[0].price, answers[1].price))
  {
    var prices := [];
    for i := 0 to |answers|
      invariant |prices| == i
      invariant forall j :: 0 <= j < i ==> answers[j].code == 0 && prices[j] == answers[j].price
    {
      if answers[i].code != 0 {
        return Failed(answers[i].code);
      }
      prices := prices + [answers[i].price];
    }
    var mean := ComputeMean(prices[0].num, prices[0].den, prices[1].num, prices[1].den);
    return if mean.Some? then Priced(mean.value) else Undefined;
  }
}
