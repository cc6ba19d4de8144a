/** scalbn, ldexp, frexp and their float variants: scaling by powers of two and
    splitting a number into fraction and exponent. */
module Scaling {
  import opened Binary
  import opened Ieee754
  import opened Arithmetic
  import Directions

  /** The reference, IEEE 754-2008 section 5.3.3: v * 2^n, rounded once. */
  function ScaleB(f: Format, dir: Direction, v: Num, n: int): Num {
    match v
    case NaN => NaN
    case Inf(neg) => Inf(neg)
    case Fin(neg, mag) =>
      if n >= 0 then ShlNat(mag, n); Round(f, dir, neg, Shl(mag, n), 0)
      else Round(f, dir, neg, mag, -n)
  }

  /** r is v * 2^n rounded once, as the standard says it. */
  ghost predicate IsScaled(f: Format, dir: Direction, v: Num, n: int, r: Num) {
    match v
    case NaN => r == NaN
    case Inf(neg) => r == Inf(neg)
    case Fin(neg, mag) =>
      if n >= 0 then Shl(mag, n) >= 0 && Directions.IsIeee(f, dir, neg, Shl(mag, n), 0, r)
      else Directions.IsIeee(f, dir, neg, mag, 0 - n, r)
  }

  lemma ScaleBIsIeee(f: Format, dir: Direction, v: Num, n: int, r: Num)
    ensures IsScaled(f, dir, v, n, r) <==> r == ScaleB(f, dir, v, n)
  {
    if v.Fin? {
      if n >= 0 {
        ShlNat(v.mag, n);
        Directions.RoundIsIeee(f, dir, v.neg, Shl(v.mag, n), 0, r);
      } else {
        Directions.RoundIsIeee(f, dir, v.neg, v.mag, 0 - n, r);
      }
    }
  }

  // ---- two roundings that act as one ----

  /** Scaling up in two steps: early overflow is never undone, and anything else is exact. */
  lemma ScaleUpTwice(f: Format, dir: Direction, v: Num, a: nat, b: nat)
    requires IsNum(f, v) && b >= 1
    ensures ScaleB(f, dir, ScaleB(f, dir, v, a), b) == ScaleB(f, dir, v, a + b)
  {
    if v.Fin? {
      var p, t, m := Prec(f), TopExp(f), ModeFor(dir, v.neg);
      ShlNat(v.mag, a);
      var y := Shl(v.mag, a);
      ShlShl(v.mag, a, b);
      RepresentableShl(p, v.mag, a);
      RoundExact(p, m, y, 0);
      if y >= Limit(f) {
        MaxMagIsNum(f);
        RoundOverflows(f, dir, v.neg, y, 0);
        ShlGrows(MaxMag(f), 0, b);
        ShlGrows(y, 0, b);
        RoundOverflows(f, dir, v.neg, Shl(MaxMag(f), b), 0);
        RoundOverflows(f, dir, v.neg, Shl(y, b), 0);
      }
    }
  }

  /** What scaling a p-bit number down does: either it stays exact, or
      the result is below 2^(p-1) units. */
  lemma ScaledDown(p: nat, m: Mode, x: nat, s: nat) returns (y: nat)
    requires p >= 2 && Representable(p, x)
    ensures y == RoundMag(p, m, x, s)
    ensures x >= Pow2(p - 1 + s) ==> Representable(p, y) && x == Shl(y, s)
    ensures x < Pow2(p - 1 + s) ==> y <= Pow2(p - 1) && (m == Away ==> (y > 0 <==> x > 0))
  {
    y := RoundMag(p, m, x, s);
    ShlShl(1, p - 1, s);
    PowRepresentable(p, p - 1);
    if x < Pow2(p - 1 + s) {
      RoundMono(p, m, x, Pow2(p - 1 + s), s);
      RoundExact(p, m, Pow2(p - 1), s);
      RoundZero(p, m, s);
      RoundMagStep(p, m, x, s, 0);
      ShlZero(s);
    } else {
      var c, j := RepresentableForm(p, x);
      ShlNat(c, j);
      ShlMono(c, Pow2(p), j);
      ShlShl(1, p, j);
      if j < s {
        Pow2Mono(p + j, p - 1 + s);
      }
      ShlShl(c, j - s, s);
      RepresentableShl(p, c, j - s);
      RoundExact(p, m, Shl(c, j - s), s);
    }
  }

  /** Two roundings on the way down are one as soon as the second step divides by more
      than 2^p: an inexact intermediate is then so small that only its being nonzero matters. */
  lemma RoundDownTwice(p: nat, m: Mode, x: nat, a: nat, b: nat)
    requires p >= 2 && Representable(p, x) && b >= p + 1
    ensures RoundMag(p, m, RoundMag(p, m, x, a), b) == RoundMag(p, m, x, a + b)
  {
    var y := ScaledDown(p, m, x, a);
    if x >= Pow2(p - 1 + a) {
      RoundScale(p, m, y, b, a, x);
    } else {
      Pow2Mono(p + 1, b);
      Pow2Mono(p + a, a + b);
      RoundTiny(p, m, y, b);
      RoundTiny(p, m, x, a + b);
    }
  }

  lemma ScaledDownFits(f: Format, dir: Direction, neg: bool, x: nat, s: nat)
    requires Representable(Prec(f), x) && x < Limit(f)
    ensures Round(f, dir, neg, x, s) == Fin(neg, RoundMag(Prec(f), ModeFor(dir, neg), x, s))
  {
    ShlGrows(x, 0, s);
    RoundMono(Prec(f), ModeFor(dir, neg), x, Shl(x, s), s);
    RoundExact(Prec(f), ModeFor(dir, neg), x, s);
  }

  /** Two steps down on a magnitude: the first one fits, and the second acts as the only one. */
  lemma ScaledDownTwice(f: Format, dir: Direction, neg: bool, x: nat, a: nat, b: nat) returns (y: nat)
    requires Representable(Prec(f), x) && x < Limit(f) && b > Prec(f)
    ensures Round(f, dir, neg, x, a) == Fin(neg, y)
    ensures Round(f, dir, neg, y, b) == Round(f, dir, neg, x, a + b)
  {
    ScaledDownFits(f, dir, neg, x, a);
    y := RoundMag(Prec(f), ModeFor(dir, neg), x, a);
    RoundDownTwice(Prec(f), ModeFor(dir, neg), x, a, b);
  }

  lemma ScaleDownIs(f: Format, dir: Direction, neg: bool, x: nat, s: nat)
    ensures ScaleB(f, dir, Fin(neg, x), 0 - s) == Round(f, dir, neg, x, s)
  {
  }

  lemma ScaleDownTwice(f: Format, dir: Direction, v: Num, a: int, b: int)
    requires IsNum(f, v) && a <= 0 && b < 0 - Prec(f)
    ensures ScaleB(f, dir, ScaleB(f, dir, v, a), b) == ScaleB(f, dir, v, a + b)
  {
    if v.Fin? {
      var y := ScaledDownTwice(f, dir, v.neg, v.mag, 0 - a, 0 - b);
      ScaleDownIs(f, dir, v.neg, v.mag, 0 - a);
      ScaleDownIs(f, dir, v.neg, y, 0 - b);
      ScaleDownIs(f, dir, v.neg, v.mag, 0 - a - b);
    }
  }

  lemma ScaleFarUp(f: Format, dir: Direction, neg: bool, x: nat, n: nat)
    requires n >= Prec(f) + TopExp(f)
    ensures ScaleB(f, dir, Fin(neg, x), n) == if x == 0 then Fin(neg, 0) else Overflow(f, dir, neg)
  {
    if x == 0 {
      ShlZero(n);
      RoundZero(Prec(f), ModeFor(dir, neg), 0);
    } else {
      ShlMono(1, x, n);
      Pow2Mono(Prec(f) + TopExp(f), n);
      RoundOverflows(f, dir, neg, Shl(x, n), 0);
    }
  }

  lemma ScaleFarDown(f: Format, dir: Direction, neg: bool, x: nat, s: nat)
    requires x < Limit(f) && s > Prec(f) + TopExp(f)
    ensures Round(f, dir, neg, x, s) == Fin(neg, if x > 0 && ModeFor(dir, neg) == Away then 1 else 0)
  {
    Pow2Mono(Prec(f) + TopExp(f), s);
    Pow2Mono(1, Prec(f) + TopExp(f));
    RoundTiny(Prec(f), ModeFor(dir, neg), x, s);
  }

  /** Beyond the whole range of the format all scale factors act alike. */
  lemma ScaleSaturates(f: Format, dir: Direction, v: Num, n: int, n': int)
    requires IsNum(f, v)
    requires (n >= Prec(f) + TopExp(f) && n' >= Prec(f) + TopExp(f))
          || (-n > Prec(f) + TopExp(f) && -n' > Prec(f) + TopExp(f))
    ensures ScaleB(f, dir, v, n) == ScaleB(f, dir, v, n')
  {
    if v.Fin? {
      if n >= 0 {
        ScaleFarUp(f, dir, v.neg, v.mag, n);
        ScaleFarUp(f, dir, v.neg, v.mag, n');
      } else {
        ScaleFarDown(f, dir, v.neg, v.mag, -n);
        ScaleFarDown(f, dir, v.neg, v.mag, -n');
      }
    }
  }

  // ---- scalbn ----

  lemma ScaledProduct(f: Format, dir: Direction, neg: bool, x: nat, k: int, n: nat)
    requires OneExp(f) + k >= 0 && n == Shl(x, OneExp(f) + k)
    ensures Round(f, dir, neg, n, OneExp(f)) == ScaleB(f, dir, Fin(neg, x), k)
  {
    var u := OneExp(f);
    if k >= 0 {
      ShlNat(x, k);
      ShlShl(x, k, u);
      RoundScale(Prec(f), ModeFor(dir, neg), Shl(x, k), 0, u, n);
    } else {
      RoundScale(Prec(f), ModeFor(dir, neg), x, 0 - k, u + k, n);
    }
  }

  /** Multiplying by 2^k scales by k, rounding once. */
  lemma MulByPower(f: Format, dir: Direction, v: Num, k: int)
    requires IsNum(f, v) && OneExp(f) + k >= 0
    ensures Mul(f, dir, v, Fin(false, Pow2(OneExp(f) + k))) == ScaleB(f, dir, v, k)
  {
    if v.Fin? {
      ShlIsMul(v.mag, OneExp(f) + k);
      ScaledProduct(f, dir, v.neg, v.mag, k, v.mag * Pow2(OneExp(f) + k));
    }
  }

  lemma PackExponent(f: Format, e: nat)
    ensures Shl(e, f.mb) >= 0 && Pack(f, 0, e, 0) == Shl(e, f.mb)
  {
    ShlNat(e, f.mb);
    ShlZero(f.eb + f.mb);
  }

  /** A word with only an exponent field is a power of two. */
  lemma PowerWord(f: Format, e: nat)
    requires 0 < e < ExpAll(f)
    ensures Shl(e, f.mb) >= 0 && IsWord(f, Shl(e, f.mb))
    ensures Value(f, Shl(e, f.mb)) == Fin(false, Pow2(f.mb + e - 1))
  {
    PackExponent(f, e);
    ValueOfPack(f, 0, e, 0);
    ShlShl(1, f.mb, e - 1);
  }

  /** The double 2^k, built as the C code builds it: `(0x3ffull + k) << 52`. */
  method PowerOfTwo(k: int) returns (w: Double)
    requires -1022 <= k <= 1023
    ensures V(w) == Fin(false, Pow2(1074 + k))
  {
    Constants();
    PowerWord(B64, 0x3ff + k);
    w := Shl(0x3ff + k, 52);
  }

  /** x * 2^k for a constant or computed double 2^k. */
  method TimesPower(dir: Direction, x: Double, k: int) returns (r: Double)
    requires -1022 <= k <= 1023
    ensures V(r) == ScaleB(B64, dir, V(x), k)
  {
    Constants();
    var w := PowerOfTwo(k);
    r := Mul64(dir, x, w);
    MulByPower(B64, dir, V(x), k);
  }

  lemma ExactPower(f: Format, dir: Direction, e: nat, n: nat)
    requires e + n < Prec(f) + TopExp(f)
    ensures ScaleB(f, dir, Fin(false, Pow2(e)), n) == Fin(false, Pow2(e + n))
  {
    ShlShl(1, e, n);
    PowRepresentable(Prec(f), e + n);
    Pow2Mono(e + n, Prec(f) + TopExp(f));
    RoundExact(Prec(f), ModeFor(dir, false), Pow2(e + n), 0);
  }

  /** x * (0x1p-1022 * 0x1p53) */
  method TimesScaleDown(dir: Direction, x: Double) returns (r: Double)
    ensures V(r) == ScaleB(B64, dir, V(x), -969)
  {
    Constants();
    var w := PowerOfTwo(-1022);
    w := TimesPower(dir, w, 53);
    r := Mul64(dir, x, w);
    ExactPower(B64, dir, 1074 - 1022, 53);
    MulByPower(B64, dir, V(x), -969);
  }

  /** After two steps up, clamping what is left of n changes nothing. */
  lemma ClampUp(f: Format, dir: Direction, v: Num, v': Num, a: nat, n: nat, n': nat)
    requires IsNum(f, v) && a >= 1 && v' == ScaleB(f, dir, ScaleB(f, dir, v, a), a)
    requires n >= 1 && a + a + n >= Prec(f) + TopExp(f)
    requires n' >= 1 && a + a + n' >= Prec(f) + TopExp(f)
    ensures ScaleB(f, dir, v', n) == ScaleB(f, dir, v', n')
  {
    ScaleUpTwice(f, dir, v, a, a);
    ScaleUpTwice(f, dir, v, a + a, n);
    ScaleUpTwice(f, dir, v, a + a, n');
    ScaleSaturates(f, dir, v, a + a + n, a + a + n');
  }

  lemma ClampDown(f: Format, dir: Direction, v: Num, v': Num, a: int, n: int, n': int)
    requires IsNum(f, v) && a < 0 - Prec(f) && v' == ScaleB(f, dir, ScaleB(f, dir, v, a), a)
    requires n < 0 - Prec(f) && a + a + n < 0 - Prec(f) - TopExp(f)
    requires n' < 0 - Prec(f) && a + a + n' < 0 - Prec(f) - TopExp(f)
    ensures ScaleB(f, dir, v', n) == ScaleB(f, dir, v', n')
  {
    ScaleDownTwice(f, dir, v, a, a);
    ScaleDownTwice(f, dir, v, a + a, n);
    ScaleDownTwice(f, dir, v, a + a, n');
    ScaleSaturates(f, dir, v, a + a + n, a + a + n');
  }

  /** `x *= 0x1p1023` while n > 1023 */
  method StepUp(dir: Direction, x: Double, ghost n: int) returns (r: Double)
    requires n > 1023
    ensures V(r) == ScaleB(B64, dir, V(x), 1023)
    ensures ScaleB(B64, dir, V(r), n - 1023) == ScaleB(B64, dir, V(x), n)
  {
    r := TimesPower(dir, x, 1023);
    ScaleUpTwice(B64, dir, V(x), 1023, n - 1023);
  }

  /** `x *= 0x1p-1022 * 0x1p53` while n < -1022 */
  method StepDown(dir: Direction, x: Double, ghost n: int) returns (r: Double)
    requires n < -1022
    ensures V(r) == ScaleB(B64, dir, V(x), -969)
    ensures ScaleB(B64, dir, V(r), n + 969) == ScaleB(B64, dir, V(x), n)
  {
    Constants();
    r := TimesScaleDown(dir, x);
    ScaleDownTwice(B64, dir, V(x), -969, n + 969);
  }

  /** scalbn is scaleB: one rounding, whatever n is and whatever the intermediate steps lose. */
  method Scalbn(dir: Direction, x0: Double, n0: int) returns (r: Double)
    ensures V(r) == ScaleB(B64, dir, V(x0), n0)
    ensures IsScaled(B64, dir, V(x0), n0, V(r))
  {
    var x, n := x0, n0;
    Constants();
    if n > 1023 {
      x := StepUp(dir, x, n);
      n := n - 1023;
      if n > 1023 {
        x := StepUp(dir, x, n);
        n := n - 1023;
        if n > 1023 {
          ClampUp(B64, dir, V(x0), V(x), 1023, n, 1023);
          n := 1023;
        }
      }
    } else if n < -1022 {
      x := StepDown(dir, x, n);
      n := n + (1022 - 53);
      if n < -1022 {
        x := StepDown(dir, x, n);
        n := n + (1022 - 53);
        if n < -1022 {
          ClampDown(B64, dir, V(x0), V(x), -969, n, -1022);
          n := -1022;
        }
      }
    }
    r := TimesPower(dir, x, n);
    ScaleBIsIeee(B64, dir, V(x0), n0, V(r));
  }

  // ---- frexp ----

  /** x * 2^e == y, without fractions. */
  ghost predicate ScalesTo(x: int, e: int, y: int) {
    if e >= 0 then Shl(x, e) == y else x == Shl(y, -e)
  }

  /** m has v's sign, lies in [1/2, 1) in magnitude, and v == m * 2^e exactly. */
  ghost predicate IsSplit(f: Format, v: Num, m: Num, e: int) {
    && v.Fin? && m.Fin? && m.neg == v.neg
    && Pow2(OneExp(f) - 1) <= m.mag < One(f)
    && ScalesTo(m.mag, e, v.mag)
  }

  lemma ScalesToWith(x: int, e: int, y: int, k: nat)
    requires e + k >= 0
    ensures ScalesTo(x, e, y) <==> Shl(x, e + k) == Shl(y, k)
  {
    if e >= 0 {
      ShlShl(x, e, k);
      ShlMono(Shl(x, e), y, k);
    } else {
      ShlShl(y, -e, e + k);
      ShlMono(x, Shl(y, -e), e + k);
    }
  }

  lemma SplitOrder(f: Format, x: nat, e: nat, y: nat, e': nat)
    requires e < e' && x < One(f) && y >= Pow2(OneExp(f) - 1)
    ensures Shl(x, e) < Shl(y, e')
  {
    ShlShl(y, 1, e' - 1);
    ShlGrows(2 * y, e, e' - 1);
    ShlMono(x, 2 * y, e);
  }

  /** A finite nonzero number splits in one way only. */
  lemma SplitUnique(f: Format, v: Num, m: Num, e: int, m': Num, e': int)
    requires IsSplit(f, v, m, e) && IsSplit(f, v, m', e')
    ensures m == m' && e == e'
  {
    var k := Abs(e) + Abs(e');
    ScalesToWith(m.mag, e, v.mag, k);
    ScalesToWith(m'.mag, e', v.mag, k);
    if e < e' {
      SplitOrder(f, m.mag, e + k, m'.mag, e' + k);
    } else if e' < e {
      SplitOrder(f, m'.mag, e' + k, m.mag, e + k);
    } else {
      ShlMono(m.mag, m'.mag, e + k);
    }
  }

  /** Scaling the fraction by the exponent restores the number, in every direction. */
  lemma SplitScalesBack(f: Format, dir: Direction, v: Num, m: Num, e: int)
    requires IsNum(f, v) && IsSplit(f, v, m, e)
    ensures ScaleB(f, dir, m, e) == v
  {
    RoundExact(Prec(f), ModeFor(dir, v.neg), v.mag, if e >= 0 then 0 else 0 - e);
  }

  /** Where a number in [2^(u-1), 2^u) lands when scaled up. */
  lemma ScaledBounds(u: nat, x: nat, e: nat, l: nat)
    requires u >= 1 && Pow2(u - 1) <= x < Pow2(u)
    ensures Pow2(u - 1 + e) <= Shl(x, e) < Pow2(u + e)
    ensures Shl(x, e) < Pow2(l) <==> u + e <= l
  {
    ShlShl(1, u, e);
    ShlShl(1, u - 1, e);
    ShlMono(x, Pow2(u), e);
    ShlMono(Pow2(u - 1), x, e);
    if u + e <= l {
      Pow2Mono(u + e, l);
    } else {
      Pow2Mono(l, u - 1 + e);
    }
  }

  lemma ScaleUpThenSplit(f: Format, dir: Direction, m: Num, e: nat)
    requires IsNum(f, m) && m.Fin? && Pow2(OneExp(f) - 1) <= m.mag < One(f)
    ensures IsSplit(f, ScaleB(f, dir, m, e), m, e) <==> OneExp(f) + e <= Prec(f) + TopExp(f)
  {
    ScaledBounds(OneExp(f), m.mag, e, Prec(f) + TopExp(f));
    if Shl(m.mag, e) < Limit(f) {
      RepresentableShl(Prec(f), m.mag, e);
      RoundOfNumber(f, dir, m.neg, Shl(m.mag, e));
    } else {
      MaxMagIsNum(f);
      RoundOverflows(f, dir, m.neg, Shl(m.mag, e), 0);
    }
  }

  lemma {:induction false} DivideExactly(p: nat, x: nat, k: nat)
    requires p >= 1 && Representable(p, x) && x == Shl(Shr(x, k), k)
    ensures Representable(p, Shr(x, k))
  {
    var c, j := RepresentableForm(p, x);
    ShlNat(c, j);
    if j >= k {
      ShlShl(c, j - k, k);
      ShlMono(Shl(c, j - k), Shr(x, k), k);
      RepresentableShl(p, c, j - k);
    } else {
      ShlShl(Shr(x, k), k - j, j);
      ShlMono(c, Shl(Shr(x, k), k - j), j);
      ShlGrows(Shr(x, k), 0, k - j);
    }
  }

  lemma ScaleDownThenSplit(f: Format, dir: Direction, m: Num, s: nat)
    requires IsNum(f, m) && m.Fin? && Pow2(OneExp(f) - 1) <= m.mag < One(f)
    requires s > 0
    ensures IsSplit(f, ScaleB(f, dir, m, 0 - s), m, 0 - s) <==> Low(m.mag, s) == 0
  {
    var p, x, md := Prec(f), m.mag, ModeFor(dir, m.neg);
    var y := RoundMag(p, md, x, s);
    ScaledDownFits(f, dir, m.neg, x, s);
    if Low(x, s) == 0 {
      DivideExactly(p, x, s);
      RoundExact(p, md, Shr(x, s), s);
    } else if x == Shl(y, s) {
      LowUnique(x, s, y, 0);
    }
  }

  /** Splitting undoes scaling of a fraction m exactly when m * 2^e neither overflows nor
      loses digits. */
  lemma ScaleThenSplit(f: Format, dir: Direction, m: Num, e: int)
    requires IsNum(f, m) && m.Fin? && Pow2(OneExp(f) - 1) <= m.mag < One(f)
    ensures IsSplit(f, ScaleB(f, dir, m, e), m, e) <==>
      OneExp(f) + e <= Prec(f) + TopExp(f) && (e >= 0 || Low(m.mag, -e) == 0)
  {
    if e >= 0 {
      ScaleUpThenSplit(f, dir, m, e);
    } else {
      ScaleDownThenSplit(f, dir, m, 0 - e);
    }
  }

  /** No digit is lost as long as the result is a normal number: for binary64, when
      -1021 <= e <= 1024. */
  lemma NormalScalingSplitsBack(f: Format, dir: Direction, m: Num, e: int)
    requires IsNum(f, m) && m.Fin? && Pow2(OneExp(f) - 1) <= m.mag < One(f)
    requires Prec(f) - OneExp(f) <= e <= Prec(f) + TopExp(f) - OneExp(f)
    ensures IsSplit(f, ScaleB(f, dir, m, e), m, e)
  {
    if e < 0 {
      var c, j := RepresentableForm(Prec(f), m.mag);
      ShlNat(c, j);
      if j < -e {
        ShlMono(c, Pow2(Prec(f)), j);
        ShlShl(1, Prec(f), j);
        Pow2Mono(Prec(f) + j, OneExp(f) - 1);
      }
      ShlNat(c, j + e);
      ShlShl(c, j + e, -e);
      LowUnique(m.mag, -e, Shl(c, j + e), 0);
    }
    ScaleThenSplit(f, dir, m, e);
  }

  lemma Shl13(x: int)
    ensures Shl(x, 13) == 0x2000 * x
  {
    assert Shl(x, 1) == 2 * x;
    assert Shl(x, 2) == 4 * x;
    assert Shl(x, 4) == 4 * Shl(x, 2);
    assert Shl(x, 6) == 4 * Shl(x, 4);
    assert Shl(x, 8) == 4 * Shl(x, 6);
    assert Shl(x, 10) == 4 * Shl(x, 8);
    assert Shl(x, 12) == 4 * Shl(x, 10);
  }

  lemma Shl52(x: int)
    ensures Shl(x, 52) == x * 0x10_0000_0000_0000
  {
    Shl13(x);
    ShlShl(x, 13, 13);
    Shl13(Shl(x, 13));
    ShlShl(x, 26, 13);
    Shl13(Shl(x, 26));
    ShlShl(x, 39, 13);
    Shl13(Shl(x, 39));
  }

  lemma ClearBelowSign(eb: nat, s: nat, e: nat)
    requires s <= 1 && e < Pow2(eb)
    ensures Shl(s, eb) >= 0 && And(Shl(s, eb) + e, Pow2(eb)) == Shl(s, eb)
  {
    AndSplit(eb, s, e, 1, 0);
    AndOnes(1, s);
  }

  /** Keeping sign and fraction of a word, and clearing its exponent field. */
  lemma ClearExponent(eb: nat, mb: nat, s: nat, e: nat, fr: nat)
    requires s <= 1 && e < Pow2(eb) && fr < Pow2(mb)
    ensures Shl(s, eb) >= 0 && Shl(Shl(s, eb) + e, mb) >= 0 && Shl(Shl(s, eb), mb) >= 0 && Shl(Pow2(eb), mb) >= 0
    ensures And(Shl(Shl(s, eb) + e, mb) + fr, Shl(Pow2(eb), mb) + (Pow2(mb) - 1)) == Shl(Shl(s, eb), mb) + fr
  {
    ClearBelowSign(eb, s, e);
    ShlNat(Shl(s, eb), mb);
    AndSplit(mb, Shl(s, eb) + e, fr, Pow2(eb), Pow2(mb) - 1);
    AndOnes(mb, fr);
  }

  /** Setting a clear exponent field. */
  lemma SetExponent(eb: nat, mb: nat, s: nat, e: nat, fr: nat)
    requires s <= 1 && e < Pow2(eb) && fr < Pow2(mb)
    ensures Shl(s, eb) >= 0 && Shl(Shl(s, eb) + e, mb) >= 0 && Shl(Shl(s, eb), mb) >= 0 && Shl(e, mb) >= 0
    ensures Or(Shl(Shl(s, eb), mb) + fr, Shl(e, mb)) == Shl(Shl(s, eb) + e, mb) + fr
  {
    ShlNat(s, eb);
    ShlNat(Shl(s, eb) + e, mb);
    ShlZero(eb);
    OrSplit(mb, Shl(s, eb), fr, e, 0);
    OrSplit(eb, s, 0, 0, e);
  }

  lemma PackIsNested(f: Format, s: nat, e: nat, fr: nat)
    ensures Pack(f, s, e, fr) == Shl(Shl(s, f.eb) + e, f.mb) + fr
  {
    ShlAdd(Shl(s, f.eb), e, f.mb);
    ShlShl(s, f.eb, f.mb);
  }

  lemma ClearedWord(f: Format, w: nat, mask: nat)
    requires IsWord(f, w) && mask == Shl(Pow2(f.eb), f.mb) + (Pow2(f.mb) - 1)
    ensures And(w, mask) == Pack(f, SignField(f, w), 0, FracField(f, w)) && SignField(f, w) <= 1
  {
    FieldsPack(f, w);
    PackIsNested(f, SignField(f, w), ExpField(f, w), FracField(f, w));
    PackIsNested(f, SignField(f, w), 0, FracField(f, w));
    ClearExponent(f.eb, f.mb, SignField(f, w), ExpField(f, w), FracField(f, w));
  }

  lemma SetWord(f: Format, s: nat, e: nat, fr: nat, bits: nat)
    requires s <= 1 && e < Pow2(f.eb) && fr < Pow2(f.mb) && bits == Shl(e, f.mb)
    ensures Or(Pack(f, s, 0, fr), bits) == Pack(f, s, e, fr)
  {
    PackIsNested(f, s, 0, fr);
    PackIsNested(f, s, e, fr);
    SetExponent(f.eb, f.mb, s, e, fr);
  }

  /** Both masks of frexp on a word of any format. */
  lemma ReplaceExponent(f: Format, w: nat, e: nat, mask: nat, bits: nat)
    requires IsWord(f, w) && e < Pow2(f.eb)
    requires mask == Shl(Pow2(f.eb), f.mb) + (Pow2(f.mb) - 1) && bits == Shl(e, f.mb)
    ensures Or(And(w, mask), bits) == Pack(f, SignField(f, w), e, FracField(f, w))
  {
    ClearedWord(f, w, mask);
    SetWord(f, SignField(f, w), e, FracField(f, w), bits);
  }

  lemma FrexpMaskValues()
    ensures 0x800f_ffff_ffff_ffff == Shl(Pow2(B64.eb), B64.mb) + (Pow2(B64.mb) - 1)
    ensures 0x3fe0_0000_0000_0000 == Shl(0x3fe, B64.mb) && 0x3fe < Pow2(B64.eb)
  {
    Shl52(2048);
    Shl52(0x3fe);
    Shl52(1);
    assert Pow2(11) == 2048;
  }

  /** What the two masks of frexp do to a word. */
  lemma FrexpMasks(w: Double)
    ensures Or(And(w, 0x800f_ffff_ffff_ffff), 0x3fe0_0000_0000_0000)
         == Pack(B64, SignField(B64, w), 0x3fe, FracField(B64, w))
  {
    FrexpMaskValues();
    ReplaceExponent(B64, w, 0x3fe, 0x800f_ffff_ffff_ffff, 0x3fe0_0000_0000_0000);
  }

  /** Moving a significand c of mb + 1 bits from exponent field e to h + 1. */
  lemma DecodeSplits(mb: nat, c: nat, e: nat, h: nat)
    requires Pow2(mb) <= c < Pow2(mb + 1) && e > 0
    ensures 0 < Pow2(mb + h) <= Shl(c, h) < Pow2(mb + 1 + h)
    ensures Shl(c, e - 1) > 0 && ScalesTo(Shl(c, h), e - 1 - h, Shl(c, e - 1))
  {
    ScaledBounds(mb + 1, c, h, 0);
    ShlGrows(c, 0, e - 1);
    if e - 1 >= h {
      ShlShl(c, h, e - 1 - h);
    } else {
      ShlShl(c, e - 1, h - (e - 1));
    }
  }

  lemma NormalSplits(w: Double)
    requires 0 < ExpField(B64, w) < 0x7ff
    ensures V(w).Fin? && V(w).mag != 0
    ensures IsWord(B64, Pack(B64, SignField(B64, w), 0x3fe, FracField(B64, w)))
    ensures IsSplit(B64, V(w), V(Pack(B64, SignField(B64, w), 0x3fe, FracField(B64, w))), ExpField(B64, w) - 0x3fe)
  {
    Constants();
    FieldsPack(B64, w);
    PackFields(B64, SignField(B64, w), 0x3fe, FracField(B64, w));
    DecodeSplits(52, Pow2(52) + FracField(B64, w), ExpField(B64, w), 1021);
  }

  lemma SplitShifts(x: int, e: int, y: int, k: nat)
    requires ScalesTo(x, e, Shl(y, k))
    ensures ScalesTo(x, e - k, y)
  {
    var j := Abs(e) + k;
    ScalesToWith(x, e, Shl(y, k), j);
    ShlShl(y, k, j);
    ScalesToWith(x, e - k, y, j + k);
  }

  /** A subnormal scaled up by at least its number of digits is exact and normal, and splitting
      it splits the original. */
  lemma SubnormalScales(f: Format, dir: Direction, v: Num, w: nat, k: nat, m: Num, e: int)
    requires v.Fin? && 0 < v.mag < Pow2(f.mb) && f.mb <= k <= TopExp(f)
    requires Value(f, w) == ScaleB(f, dir, v, k)
    ensures Shl(v.mag, k) > 0 && Value(f, w) == Fin(v.neg, Shl(v.mag, k))
    ensures 0 < ExpField(f, w) < ExpAll(f)
    ensures IsSplit(f, Value(f, w), m, e) ==> IsSplit(f, v, m, e - k)
  {
    Pow2Mono(f.mb, Prec(f));
    RepresentableShl(Prec(f), v.mag, k);
    ShlMono(v.mag, Pow2(f.mb), k);
    ShlShl(1, f.mb, k);
    Pow2Mono(f.mb + k, Prec(f) + TopExp(f));
    RoundOfNumber(f, dir, v.neg, Shl(v.mag, k));
    ShlMono(1, v.mag, k);
    Pow2Mono(f.mb, k);
    FieldsPack(f, w);
    if IsSplit(f, Value(f, w), m, e) {
      SplitShifts(m.mag, e, v.mag, k);
    }
  }

  /** The truth value of a double in C. */
  predicate IsNonzero(v: Num) {
    v != Fin(false, 0) && v != Fin(true, 0)
  }

  lemma SubnormalIsSmall(f: Format, w: nat)
    requires ExpField(f, w) == 0
    ensures Value(f, w).Fin? && Value(f, w).mag < Pow2(f.mb)
  {
    FieldsPack(f, w);
  }

  /** Scaled up by 2^k, the word of a subnormal is that of a normal number, and its split gives that
      of the subnormal. */
  lemma SubnormalWord(f: Format, dir: Direction, w: nat, w1: nat, k: nat, m: Num, e: int)
    requires ExpField(f, w) == 0 && f.mb <= k <= TopExp(f)
    requires Value(f, w1) == ScaleB(f, dir, Value(f, w), k)
    ensures IsNonzero(Value(f, w)) ==>
      && Value(f, w1).Fin? && Value(f, w1).mag != 0 && 0 < ExpField(f, w1) < ExpAll(f)
      && (IsSplit(f, Value(f, w1), m, e) ==> IsSplit(f, Value(f, w), m, e - k))
  {
    SubnormalIsSmall(f, w);
    if IsNonzero(Value(f, w)) {
      SubnormalScales(f, dir, Value(f, w), w1, k, m, e);
    }
  }

  /** `u.i &= 0x800fffffffffffff; u.i |= 0x3fe0000000000000` */
  method FractionWord(w: Double) returns (r: Double)
    requires 0 < ExpField(B64, w) < 0x7ff
    ensures V(w).Fin? && V(w).mag != 0 && IsSplit(B64, V(w), V(r), ExpField(B64, w) - 0x3fe)
  {
    NormalSplits(w);
    FrexpMasks(w);
    var u: nat := w;
    u := And(u, 0x800f_ffff_ffff_ffff);
    u := Or(u, 0x3fe0_0000_0000_0000);
    r := u;
  }

  /** `*e` is e0 before the call; it is left alone for infinities and NaNs. calls counts the
      calls of frexp made, this one included. */
  method Frexp(dir: Direction, x0: Double, e0: int) returns (r: Double, e: int, ghost calls: nat)
    ensures !V(x0).Fin? ==> r == x0 && e == e0
    ensures V(x0).Fin? && V(x0).mag == 0 ==> r == x0 && e == 0
    ensures V(x0).Fin? && V(x0).mag != 0 ==> IsSplit(B64, V(x0), V(r), e)
    ensures calls == if ExpField(B64, x0) == 0 && IsNonzero(V(x0)) then 2 else 1
    decreases if ExpField(B64, x0) == 0 then 1 else 0
  {
    var x: Double, u: nat := x0, x0;
    e, calls := e0, 1;
    Constants();
    ghost var field := ExponentField(x0);
    var ee: int := And(Shr(u, 52), 0x7ff);
    if ee == 0 {
      if IsNonzero(V(x)) {
        var x1 := TimesPower(dir, x, 64);
        SubnormalWord(B64, dir, x0, x1, 64, V(x1), 0);
        x, e, calls := Frexp(dir, x1, e);
        SubnormalWord(B64, dir, x0, x1, 64, V(x), e);
        e, calls := e - 64, calls + 1;
      } else {
        e := 0;
      }
      return x, e, calls;
    } else if ee == 0x7ff {
      return x, e, calls;
    }
    e := ee - 0x3fe;
    x := FractionWord(x0);
    return x, e, calls;
  }

  lemma SplitNonzero(f: Format, v: Num, m: Num, e: int)
    requires IsSplit(f, v, m, e)
    ensures v.mag > 0
  {
    ScalesToWith(m.mag, e, v.mag, Abs(e));
    ShlZero(Abs(e));
    ShlZero(e + Abs(e));
    ShlMono(0, m.mag, e + Abs(e));
  }

  /** Taking a finite double apart and scaling the fraction back is the identity on bits,
      signed zeros and subnormals included, whatever directions are in force. */
  method FrexpThenScalbn(dir: Direction, dir': Direction, x: Double) returns (r: Double)
    requires V(x).Fin?
    ensures r == x
  {
    var m, e, calls := Frexp(dir, x, 0);
    r := Scalbn(dir', m, e);
    if V(x).mag == 0 {
      RoundExact(Prec(B64), ModeFor(dir', V(x).neg), 0, 0);
    } else {
      SplitScalesBack(B64, dir', V(x), V(m), e);
    }
    ValueInjective(B64, x, r);
  }

  /** When a fraction m and exponent e survive scaling by 2^e in binary64. */
  predicate Recoverable(m: Double, e: int)
    requires V(m).Fin?
  {
    e <= 1024 && (e >= 0 || Low(V(m).mag, 0 - e) == 0)
  }

  lemma RecoverableSplits(dir: Direction, m: Double, e: int)
    requires V(m).Fin? && Pow2(OneExp(B64) - 1) <= V(m).mag < One(B64)
    ensures IsSplit(B64, ScaleB(B64, dir, V(m), e), V(m), e) <==> Recoverable(m, e)
    ensures -1021 <= e <= 1024 ==> Recoverable(m, e)
  {
    Constants();
    ScaleThenSplit(B64, dir, V(m), e);
    if -1021 <= e <= 1024 {
      NormalScalingSplitsBack(B64, dir, V(m), e);
    }
  }

  /** Scaling a fraction in [1/2, 1) and taking the result apart returns fraction and exponent
      exactly when no digit is lost and nothing overflows, as in the whole normal range. */
  method ScalbnThenFrexp(dir: Direction, dir': Direction, m: Double, e: int) returns (m': Double, e': int)
    requires V(m).Fin? && Pow2(OneExp(B64) - 1) <= V(m).mag < One(B64)
    ensures m' == m && e' == e <==> Recoverable(m, e)
    ensures -1021 <= e <= 1024 ==> m' == m && e' == e
  {
    RecoverableSplits(dir, m, e);
    var x := Scalbn(dir, m, e);
    ghost var calls;
    m', e', calls := Frexp(dir', x, 0);
    if Recoverable(m, e) {
      SplitNonzero(B64, V(x), V(m), e);
      SplitUnique(B64, V(x), V(m), e, V(m'), e');
      ValueInjective(B64, m, m');
    }
  }

  // ---- scalbnf, ldexpf ----

  lemma {:induction false} RepresentableWider(p: nat, q: nat, x: nat)
    requires p <= q && Representable(p, x)
    ensures Representable(q, x)
    decreases x
  {
    Pow2Mono(p, q);
    if x >= Pow2(p) {
      RepresentableWider(p, q, x / 2);
    }
  }

  /** g extends f by so many digits and exponents that what g loses f cannot see. */
  predicate Extends(g: Format, f: Format) {
    && Prec(f) <= Prec(g)
    && OneExp(g) > OneExp(f) + Prec(g)
    && TopExp(g) + Prec(g) > Prec(f) + TopExp(f) + OneExp(g) - OneExp(f)
  }

  /** How many more binary places g has below the point. */
  function Extra(g: Format, f: Format): nat
    requires Extends(g, f)
  {
    OneExp(g) - OneExp(f)
  }

  lemma DoubleExtendsFloat()
    ensures Extends(B64, B32) && Extra(B64, B32) == 925
  {
    Constants();
  }

  lemma WidenIsExact(g: Format, f: Format, dir: Direction, v: Num)
    requires Extends(g, f) && IsNum(f, v)
    ensures v.Fin? ==> 0 <= Shl(v.mag, Extra(g, f)) < Limit(g)
    ensures Convert(f, g, dir, v) == if v.Fin? then Fin(v.neg, Shl(v.mag, Extra(g, f))) else v
  {
    if v.Fin? {
      var d, l := Extra(g, f), Prec(f) + TopExp(f);
      RepresentableWider(Prec(f), Prec(g), v.mag);
      RepresentableShl(Prec(g), v.mag, d);
      ShlShl(v.mag, d, OneExp(f));
      RoundExact(Prec(g), ModeFor(dir, v.neg), Shl(v.mag, d), OneExp(f));
      ShlMono(v.mag, Limit(f), d);
      ShlShl(1, l, d);
      Pow2Mono(l + d, Prec(g) + TopExp(g));
    }
  }

  lemma NarrowRounds(g: Format, f: Format, dir: Direction, neg: bool, x: nat)
    requires Extends(g, f)
    ensures Convert(g, f, dir, Fin(neg, x)) == Round(f, dir, neg, x, Extra(g, f))
  {
    ShlNat(x, OneExp(f));
    RoundScale(Prec(f), ModeFor(dir, neg), x, Extra(g, f), OneExp(f), Shl(x, OneExp(f)));
  }

  /** What overflows in g overflows in f, to the same kind of result. */
  lemma NarrowedOverflow(g: Format, f: Format, dir: Direction, neg: bool, x: nat)
    requires Extends(g, f) && Shl(x, Extra(g, f)) >= Limit(g)
    ensures Convert(g, f, dir, Overflow(g, dir, neg)) == Round(f, dir, neg, x, 0)
  {
    var d, l := Extra(g, f), Prec(f) + TopExp(f);
    MaxMagIsNum(g);
    NarrowRounds(g, f, dir, neg, MaxMag(g));
    Pow2Mono(l + d, Prec(g) + TopExp(g) - 1);
    RoundOverflows(f, dir, neg, MaxMag(g), d);
    ShlShl(1, l, d);
    ShlMono(Pow2(l), x, d);
    RoundOverflows(f, dir, neg, x, 0);
  }

  lemma RoundOfScaled(f: Format, dir: Direction, neg: bool, z: nat, y: nat, k: nat, d: nat)
    requires y == Shl(z, d)
    ensures Round(f, dir, neg, y, d + k) == Round(f, dir, neg, z, k)
  {
    RoundScale(Prec(f), ModeFor(dir, neg), z, k, d, y);
  }

  lemma NarrowedNumber(g: Format, f: Format, dir: Direction, neg: bool, z: nat, y: nat)
    requires Extends(g, f) && y == Shl(z, Extra(g, f))
    ensures Convert(g, f, dir, Fin(neg, y)) == Round(f, dir, neg, z, 0)
  {
    NarrowRounds(g, f, dir, neg, y);
    RoundOfScaled(f, dir, neg, z, y, 0, Extra(g, f));
  }

  /** What g can represent is only rounded once. */
  lemma NarrowedExact(g: Format, f: Format, dir: Direction, neg: bool, z: nat, y: nat)
    requires Extends(g, f) && y == Shl(z, Extra(g, f)) && Representable(Prec(g), y)
    ensures Convert(g, f, dir, Round(g, dir, neg, y, 0)) == Round(f, dir, neg, z, 0)
  {
    if y >= Limit(g) {
      RoundOverflows(g, dir, neg, y, 0);
      NarrowedOverflow(g, f, dir, neg, z);
    } else {
      RoundOfNumber(g, dir, neg, y);
      NarrowedNumber(g, f, dir, neg, z, y);
    }
  }

  lemma NarrowedScaleUp(g: Format, f: Format, dir: Direction, neg: bool, x: nat, n: nat)
    requires Extends(g, f) && Representable(Prec(f), x)
    ensures Shl(x, Extra(g, f)) >= 0
    ensures Convert(g, f, dir, ScaleB(g, dir, Fin(neg, Shl(x, Extra(g, f))), n)) == ScaleB(f, dir, Fin(neg, x), n)
  {
    var d := Extra(g, f);
    ShlNat(x, d);
    ShlNat(x, n);
    ShlShl(x, d, n);
    ShlShl(x, n, d);
    RepresentableWider(Prec(f), Prec(g), x);
    RepresentableShl(Prec(g), x, d + n);
    NarrowedExact(g, f, dir, neg, Shl(x, n), Shl(Shl(x, d), n));
  }

  /** A number of p bits, scaled by 2^-s with d extra places, rounded, and rounded again to q bits. */
  lemma NarrowedRoundDown(p: nat, q: nat, d: nat, m: Mode, x: nat, s: nat, w: nat, y: nat)
    requires 2 <= p < d && Representable(p, x) && w == Shl(x, d) && y == RoundMag(p, m, w, s)
    ensures RoundMag(q, m, y, d) == RoundMag(q, m, x, s)
  {
    RepresentableShl(p, x, d);
    var y' := ScaledDown(p, m, w, s);
    if w >= Pow2(p - 1 + s) {
      RoundScale(q, m, y, d, s, w);
      RoundScale(q, m, x, s, d, w);
    } else {
      ShlZero(d);
      ShlMono(0, x, d);
      ShlAdd(x, x, d);
      ShlShl(1, s, d);
      ShlMono(Pow2(s), 2 * x, d);
      Pow2Mono(p + s, s + d);
      Pow2Mono(p, d);
      RoundTiny(q, m, y, d);
      RoundTiny(q, m, x, s);
    }
  }

  lemma NarrowedScaleDown(g: Format, f: Format, dir: Direction, neg: bool, x: nat, s: nat)
    requires Extends(g, f) && Representable(Prec(f), x)
    requires 0 <= Shl(x, Extra(g, f)) < Limit(g)
    ensures Convert(g, f, dir, Round(g, dir, neg, Shl(x, Extra(g, f)), s)) == Round(f, dir, neg, x, s)
  {
    var d, p, m := Extra(g, f), Prec(g), ModeFor(dir, neg);
    RepresentableWider(Prec(f), p, x);
    RepresentableShl(p, x, d);
    ScaledDownFits(g, dir, neg, Shl(x, d), s);
    NarrowRounds(g, f, dir, neg, RoundMag(p, m, Shl(x, d), s));
    NarrowedRoundDown(p, Prec(f), d, m, x, s, Shl(x, d), RoundMag(p, m, Shl(x, d), s));
  }

  /** Scaling in the wider format and then narrowing rounds as if only once. */
  lemma ScaleInWider(g: Format, f: Format, dir: Direction, v: Num, n: int)
    requires Extends(g, f) && IsNum(f, v)
    ensures Convert(g, f, dir, ScaleB(g, dir, Convert(f, g, dir, v), n)) == ScaleB(f, dir, v, n)
  {
    WidenIsExact(g, f, dir, v);
    if v.Fin? {
      if n >= 0 {
        NarrowedScaleUp(g, f, dir, v.neg, v.mag, n);
      } else {
        NarrowedScaleDown(g, f, dir, v.neg, v.mag, -n);
      }
    }
  }

  /** scalbnf and ldexpf compute in double and convert; they are still correctly rounded. */
  method Scalbnf(dir: Direction, x: Float, n: int) returns (r: Float)
    ensures VF(r) == ScaleB(B32, dir, VF(x), n)
    ensures IsScaled(B32, dir, VF(x), n, VF(r))
  {
    var d := Widen(dir, x);
    d := Scalbn(dir, d, n);
    r := Narrow(dir, d);
    DoubleExtendsFloat();
    ScaleInWider(B64, B32, dir, VF(x), n);
    ScaleBIsIeee(B32, dir, VF(x), n, VF(r));
  }

  // ---- frexpf ----

  lemma {:induction false} Normalise(p: nat, x: nat) returns (c: nat, k: nat)
    requires p >= 1 && 0 < x < Pow2(p)
    ensures c == Shl(x, k) && Pow2(p - 1) <= c < Pow2(p)
    decreases Pow2(p) - x
  {
    c, k := x, 0;
    if x < Pow2(p - 1) {
      c, k := Normalise(p, 2 * x);
      ShlShl(x, 1, k);
      k := k + 1;
    }
  }

  /** Every finite nonzero number of a format has a fraction that is a number of the format. */
  lemma SplitExists(f: Format, v: Num) returns (m: Num, e: int)
    requires IsNum(f, v) && v.Fin? && v.mag > 0
    ensures IsNum(f, m) && IsSplit(f, v, m, e)
  {
    var p, u := Prec(f), OneExp(f);
    var c0, j := RepresentableForm(p, v.mag);
    ShlZero(j);
    var c, k := Normalise(p, c0);
    var h := u - p;
    ScaledBounds(p, c, h, p + TopExp(f));
    RepresentableShl(p, c, h);
    m := Fin(v.neg, Shl(c, h));
    e := 0 - h - k + j;
    ShlShl(c, h, j);
    ShlShl(c0, k, h + j);
    ShlShl(c0, j, k + h);
    ScalesToWith(m.mag, e, v.mag, k + h);
  }

  lemma SplitScaled(x: int, e: int, y: int, d: nat)
    requires ScalesTo(x, e, y)
    ensures ScalesTo(Shl(x, d), e, Shl(y, d))
  {
    var k := Abs(e);
    ScalesToWith(x, e, y, k);
    ScalesToWith(Shl(x, d), e, Shl(y, d), k);
    ShlShl(x, d, e + k);
    ShlShl(x, e + k, d);
    ShlShl(y, d, k);
    ShlShl(y, k, d);
  }

  /** A fraction and exponent stay what they are when both numbers are widened. */
  lemma SplitWidened(g: Format, f: Format, dir: Direction, v: Num, m: Num, e: int)
    requires Extends(g, f) && IsNum(f, v) && IsNum(f, m) && IsSplit(f, v, m, e)
    ensures IsSplit(g, Convert(f, g, dir, v), Convert(f, g, dir, m), e)
  {
    WidenIsExact(g, f, dir, v);
    WidenIsExact(g, f, dir, m);
    SplitScaled(m.mag, e, v.mag, Extra(g, f));
    ShlShl(1, OneExp(f) - 1, Extra(g, f));
    ScaledBounds(OneExp(f), m.mag, Extra(g, f), 0);
  }

  lemma NarrowWidened(g: Format, f: Format, dir: Direction, v: Num)
    requires Extends(g, f) && IsNum(f, v)
    ensures Convert(g, f, dir, Convert(f, g, dir, v)) == v
  {
    WidenIsExact(g, f, dir, v);
    if v.Fin? {
      NarrowRounds(g, f, dir, v.neg, Shl(v.mag, Extra(g, f)));
      RoundExact(Prec(f), ModeFor(dir, v.neg), v.mag, Extra(g, f));
    }
  }

  /** The fraction that the wider format finds is a number of the narrower one. */
  lemma SplitInWider(g: Format, f: Format, dir: Direction, v: Num, m: Num, e: int)
    requires Extends(g, f) && IsNum(f, v) && v.Fin? && v.mag > 0
    requires IsSplit(g, Convert(f, g, dir, v), m, e)
    ensures IsSplit(f, v, Convert(g, f, dir, m), e)
  {
    var m', e' := SplitExists(f, v);
    SplitWidened(g, f, dir, v, m', e');
    SplitUnique(g, Convert(f, g, dir, v), m, e, Convert(f, g, dir, m'), e');
    NarrowWidened(g, f, dir, m');
  }

  lemma WidenKeepsZero(g: Format, f: Format, dir: Direction, v: Num)
    requires Extends(g, f) && IsNum(f, v)
    ensures Convert(f, g, dir, v).Fin? <==> v.Fin?
    ensures v.Fin? ==> (Convert(f, g, dir, v).mag == 0 <==> v.mag == 0)
  {
    WidenIsExact(g, f, dir, v);
    if v.Fin? {
      ShlZero(Extra(g, f));
      ShlMono(v.mag, 0, Extra(g, f));
    }
  }

  /** frexpf splits the double of the same value; fraction and exponent are those of the float. */
  method Frexpf(dir: Direction, x: Float, e0: int) returns (r: Float, e: int)
    ensures !VF(x).Fin? ==> VF(r) == VF(x) && e == e0
    ensures VF(x).Fin? && VF(x).mag == 0 ==> r == x && e == 0
    ensures VF(x).Fin? && VF(x).mag != 0 ==> IsSplit(B32, VF(x), VF(r), e)
  {
    DoubleExtendsFloat();
    WidenKeepsZero(B64, B32, dir, VF(x));
    NarrowWidened(B64, B32, dir, VF(x));
    var d := Widen(dir, x);
    ghost var calls;
    d, e, calls := Frexp(dir, d, e0);
    r := Narrow(dir, d);
    if VF(x).Fin? {
      if VF(x).mag == 0 {
        ValueInjective(B32, x, r);
      } else {
        SplitInWider(B64, B32, dir, VF(x), V(d), e);
      }
    }
  }

  /** frexpf then ldexpf is the identity on the bits of every finite float. */
  method FrexpfThenLdexpf(dir: Direction, dir': Direction, x: Float) returns (r: Float)
    requires VF(x).Fin?
    ensures r == x
  {
    var m, e := Frexpf(dir, x, 0);
    r := Scalbnf(dir', m, e);
    if VF(x).mag == 0 {
      RoundExact(Prec(B32), ModeFor(dir', VF(x).neg), 0, 0);
    } else {
      SplitScalesBack(B32, dir', VF(x), VF(m), e);
    }
    ValueInjective(B32, x, r);
  }
}
