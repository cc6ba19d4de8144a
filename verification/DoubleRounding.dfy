/** Sums of floats computed in double: rounding to 53 bits and then to 24 gives the same result
    as rounding to 24 bits once. */
module DoubleRounding {
  import opened Binary
  import opened Ieee754
  import opened Arithmetic
  import opened Scaling

  /** In a directed mode a detour over more bits never matters. */
  lemma DirectedTwice(p: nat, q: nat, m: Mode, s: nat, d: nat, w: nat)
    requires 2 <= p <= q && m != Nearest
    requires w == Shl(s, d)
    ensures RoundMag(p, m, RoundMag(q, m, w, 0), d) == RoundMag(p, m, s, 0)
  {
    var y := RoundMag(q, m, w, 0);
    var z, r := RoundMag(p, m, y, d), RoundMag(p, m, s, 0);
    RoundMagStep(p, m, s, 0, 0);
    RoundMagStep(p, m, y, d, r);
    RoundMagStep(p, m, s, 0, z);
    RepresentableWider(p, q, r);
    RepresentableShl(q, r, d);
    RoundMagStep(q, m, w, 0, Shl(r, d));
    ShlMono(r, s, d);
    ShlMono(s, r, d);
    ShlMono(z, s, d);
    ShlMono(s, z, d);
  }

  lemma MultiplesApart(x: int, y: int, k: nat)
    requires x != y
    ensures Distance(Shl(x, k), Shl(y, k)) >= Pow2(k)
  {
    ShlAdd(x, 1, k);
    ShlAdd(y, 1, k);
    ShlMono(x + 1, y, k);
    ShlMono(y + 1, x, k);
  }

  lemma SmallerExponent(p: nat, e: nat, i: nat, c: nat, j: nat)
    requires p >= 1 && i + 1 < j && e < Pow2(p) && c >= Pow2(p - 1)
    ensures Shl(e, i) + Pow2(j - 1) <= Shl(c, j)
  {
    var t := p + j - 2;
    ShlBelow(e, p, i);
    Pow2Mono(p + i, t);
    ShlAbove(c, p - 1, j);
    Pow2Mono(t, p - 1 + j);
    Pow2Mono(j - 1, t);
  }

  lemma LargerExponent(e: nat, i: nat, c: nat, h: nat)
    requires i >= h && Shl(e, i) != Shl(c, h + 1)
    ensures Distance(Shl(e, i), Shl(c, h + 1)) >= Pow2(h)
  {
    var t := i - h;
    ShlShl(e, t, h);
    ShlShl(c, 1, h);
    assert h + 1 == 1 + h && t + h == i;
    MultiplesApart(Shl(e, t), Shl(c, 1), h);
  }

  /** No other number of p bits is nearer to c * 2^j, c being normalised, than half a digit. */
  lemma Gap(p: nat, x: nat, c: nat, j: nat)
    requires p >= 1 && j >= 1 && Representable(p, x) && c >= Pow2(p - 1) && x != Shl(c, j)
    ensures Distance(x, Shl(c, j)) >= Pow2(j - 1)
  {
    var e, i := RepresentableForm(p, x);
    if i + 1 < j {
      SmallerExponent(p, e, i, c, j);
    } else {
      LargerExponent(e, i, c, j - 1);
    }
  }

  lemma OrderScaled(x: int, a: int, g: nat, k: nat)
    requires x + Pow2(g) <= a
    ensures Shl(x, k) + Pow2(g + k) <= Shl(a, k)
  {
    ShlShl(1, g, k);
    ShlAdd(x, Pow2(g), k);
    ShlMono(x + Pow2(g), a, k);
  }

  lemma GapScaled(x: nat, a: nat, j: nat, k: nat)
    requires j >= 3 && Distance(x, a) >= Pow2(j - 1)
    ensures Distance(Shl(x, k), Shl(a, k)) >= 4 * Pow2(j - 3 + k)
  {
    if x < a {
      OrderScaled(x, a, j - 1, k);
    } else {
      OrderScaled(a, x, j - 1, k);
    }
    assert Pow2(j - 1 + k) == 2 * Pow2(j - 2 + k) == 4 * Pow2(j - 3 + k);
  }

  /** What is within an eighth of a digit of c * 2^j is rounded to it. */
  lemma NearNumber(p: nat, n: nat, k: nat, c: nat, j: nat)
    requires p >= 2 && j >= 3 && Pow2(p - 1) <= c < Pow2(p)
    requires Distance(n, Shl(Shl(c, j), k)) <= Pow2(j - 3 + k)
    ensures RoundMag(p, Nearest, n, k) == Shl(c, j)
  {
    RepresentableShl(p, c, j);
    var a, r := Shl(c, j), RoundMag(p, Nearest, n, k);
    RoundMagStep(p, Nearest, n, k, a);
    if r != a {
      Gap(p, r, c, j);
      GapScaled(r, a, j, k);
    }
  }

  lemma MultipleRepresentable(q: nat, x: nat, y: nat, k: nat, s: nat)
    requires q >= 1 && x < Pow2(q - 1) && y <= x
    requires s == Shl(x, k) + Shl(y, k) || s == Shl(x, k) - Shl(y, k)
    ensures Representable(q, s)
  {
    var u: nat := if s == Shl(x, k) + Shl(y, k) then x + y else x - y;
    ShlAdd(x, y, k);
    assert u < Pow2(q);
    RepresentableShl(q, u, k);
  }

  lemma SumFits(p: nat, q: nat, c: nat, j: nat, e: nat, i: nat, s: nat)
    requires p >= 1 && q >= 2 * p + 3 && c < Pow2(p) && e < Pow2(p) && j < i + p + 3
    requires 0 <= Shl(e, i) <= Shl(c, j)
    requires s == Shl(c, j) + Shl(e, i) || s == Shl(c, j) - Shl(e, i)
    ensures Representable(q, s)
  {
    if j < i {
      ShlShl(e, i - j, j);
      ShlMono(Shl(e, i - j), c, j);
      ShlNat(e, i - j);
      Pow2Mono(p, q - 1);
      MultipleRepresentable(q, c, Shl(e, i - j), j, s);
    } else {
      ShlShl(c, j - i, i);
      ShlMono(e, Shl(c, j - i), i);
      ShlMono(c, Pow2(p), j - i);
      ShlShl(1, p, j - i);
      Pow2Mono(p + (j - i), q - 1);
      MultipleRepresentable(q, Shl(c, j - i), e, i, s);
    }
  }

  /** A sum or difference of two p-bit numbers that does not fit 2p + 3 bits is within an eighth
      of the last digit of the larger. */
  lemma SumShape(p: nat, q: nat, a: nat, b: nat, s: nat) returns (c: nat, j: nat)
    requires p >= 1 && q >= 2 * p + 3 && Representable(p, a) && Representable(p, b) && b <= a
    requires (s == a + b || s == a - b) && !Representable(q, s)
    ensures j >= 3 && Pow2(p - 1) <= c < Pow2(p) && a == Shl(c, j) && b <= Pow2(j - 3)
  {
    var e, i;
    c, j := RepresentableForm(p, a);
    e, i := RepresentableForm(p, b);
    if j < i + p + 3 {
      SumFits(p, q, c, j, e, i, s);
    } else {
      ShlMono(e, Pow2(p), i);
      ShlShl(1, p, i);
      Pow2Mono(p + i, j - 3);
    }
  }

  lemma Neighbours(p: nat, q: nat, c: nat, j: nat)
    requires q >= p + 4 && j >= 3 && 0 < c < Pow2(p)
    ensures Shl(c, j) >= Pow2(j - 3)
    ensures Representable(q, Shl(c, j) - Pow2(j - 3)) && Representable(q, Shl(c, j) + Pow2(j - 3))
  {
    ShlShl(c, 3, j - 3);
    assert Shl(c, 3) == 2 * Shl(c, 2) == 4 * Shl(c, 1) == 8 * c;
    ShlAdd(8 * c, 1, j - 3);
    assert Pow2(p + 4) == 2 * Pow2(p + 3) == 4 * Pow2(p + 2) == 8 * Pow2(p + 1) == 16 * Pow2(p);
    Pow2Mono(p + 4, q);
    RepresentableShl(q, 8 * c + 1, j - 3);
    RepresentableShl(q, 8 * c - 1, j - 3);
  }

  lemma NearScaled(p: nat, y: nat, k: nat, c: nat, j: nat)
    requires p >= 2 && j >= 3 && Pow2(p - 1) <= c < Pow2(p) && Shl(c, j) >= Pow2(j - 3)
    requires Shl(Shl(c, j) - Pow2(j - 3), k) <= y <= Shl(Shl(c, j) + Pow2(j - 3), k)
    ensures RoundMag(p, Nearest, y, k) == Shl(c, j)
  {
    ShlAdd(Shl(c, j), Pow2(j - 3), k);
    ShlShl(1, j - 3, k);
    NearNumber(p, y, k, c, j);
  }

  lemma NearUnscaled(p: nat, n: nat, c: nat, j: nat)
    requires p >= 2 && j >= 3 && Pow2(p - 1) <= c < Pow2(p)
    requires Distance(n, Shl(c, j)) <= Pow2(j - 3)
    ensures RoundMag(p, Nearest, n, 0) == Shl(c, j)
  {
    NearNumber(p, n, 0, c, j);
  }

  /** Rounding stays between numbers of the format. */
  lemma RoundWithin(q: nat, m: Mode, s: nat, d: nat, w: nat, lo: nat, hi: nat)
    requires q >= 2 && Representable(q, lo) && Representable(q, hi) && lo <= s <= hi
    requires w == Shl(s, d)
    ensures Shl(lo, d) <= RoundMag(q, m, w, 0) <= Shl(hi, d)
  {
    RepresentableShl(q, lo, d);
    RepresentableShl(q, hi, d);
    ShlMono(lo, s, d);
    ShlMono(s, hi, d);
    RoundExact(q, m, Shl(lo, d), 0);
    RoundExact(q, m, Shl(hi, d), 0);
    RoundMono(q, m, Shl(lo, d), w, 0);
    RoundMono(q, m, w, Shl(hi, d), 0);
  }

  /** To nearest, a detour over q bits does not matter so close to a number of p bits. */
  lemma NearestTwice(p: nat, q: nat, s: nat, d: nat, w: nat, c: nat, j: nat)
    requires p >= 2 && q >= p + 4 && j >= 3 && Pow2(p - 1) <= c < Pow2(p)
    requires Distance(s, Shl(c, j)) <= Pow2(j - 3)
    requires w == Shl(s, d)
    ensures RoundMag(p, Nearest, RoundMag(q, Nearest, w, 0), d) == RoundMag(p, Nearest, s, 0)
  {
    var a, h := Shl(c, j), Pow2(j - 3);
    Neighbours(p, q, c, j);
    RoundWithin(q, Nearest, s, d, w, a - h, a + h);
    NearScaled(p, RoundMag(q, Nearest, w, 0), d, c, j);
    NearUnscaled(p, s, c, j);
  }

  lemma RoundBelow(q: nat, m: Mode, s: nat, d: nat, w: nat, l: nat)
    requires q >= 2 && s <= Pow2(l) && w == Shl(s, d)
    ensures RoundMag(q, m, w, 0) <= Pow2(l + d)
  {
    PowRepresentable(q, l);
    RoundWithin(q, m, s, d, w, 0, Pow2(l));
    ShlShl(1, l, d);
  }

  lemma RoundFixed(q: nat, m: Mode, x: nat, k: nat) returns (y: nat)
    requires q >= 2 && Representable(q, x) && k == 0
    ensures y == RoundMag(q, m, x, k) == x
  {
    RoundExact(q, m, x, k);
    y := x;
  }

  lemma RoundScaled(p: nat, m: Mode, s: nat, d: nat, y: nat, k: nat)
    requires y == Shl(s, d)
    ensures RoundMag(p, m, y, d + k) == RoundMag(p, m, s, k)
  {
    RoundScale(p, m, s, k, d, y);
  }

  lemma ExactTwice(p: nat, q: nat, m: Mode, s: nat, d: nat, w: nat)
    requires q >= 2 && Representable(q, s)
    requires w == Shl(s, d)
    ensures RoundMag(p, m, RoundMag(q, m, w, 0), d) == RoundMag(p, m, s, 0)
  {
    RepresentableShl(q, s, d);
    var y := RoundFixed(q, m, w, 0);
    RoundScaled(p, m, s, d, y, 0);
  }

  lemma LongSumTwice(p: nat, q: nat, a: nat, b: nat, s: nat, d: nat, w: nat)
    requires p >= 2 && q >= 2 * p + 3 && Representable(p, a) && Representable(p, b) && b <= a
    requires (s == a + b || s == a - b) && !Representable(q, s)
    requires w == Shl(s, d)
    ensures RoundMag(p, Nearest, RoundMag(q, Nearest, w, 0), d) == RoundMag(p, Nearest, s, 0)
  {
    var c, j := SumShape(p, q, a, b, s);
    NearestTwice(p, q, s, d, w, c, j);
  }

  /** The exact sum or difference of two p-bit numbers may be rounded to 2p + 3 bits first. */
  lemma SumRoundedTwice(p: nat, q: nat, m: Mode, a: nat, b: nat, s: nat, d: nat, w: nat)
    requires p >= 2 && q >= 2 * p + 3 && Representable(p, a) && Representable(p, b)
    requires s == a + b || s == Distance(a, b)
    requires w == Shl(s, d)
    ensures RoundMag(p, m, RoundMag(q, m, w, 0), d) == RoundMag(p, m, s, 0)
  {
    if m != Nearest {
      DirectedTwice(p, q, m, s, d, w);
    } else if Representable(q, s) {
      ExactTwice(p, q, m, s, d, w);
    } else if a < b {
      LongSumTwice(p, q, b, a, s, d, w);
    } else {
      LongSumTwice(p, q, a, b, s, d, w);
    }
  }

  /** g is so much larger than f that sums of f's numbers may be computed in g. */
  predicate ExtendsForSums(g: Format, f: Format) {
    && Extends(g, f)
    && Prec(g) >= 2 * Prec(f) + 3
    && TopExp(g) + Prec(g) > Prec(f) + TopExp(f) + Extra(g, f) + 1
  }

  lemma SignedShl(v: Num, d: nat)
    requires v.Fin?
    ensures Shl(v.mag, d) >= 0 && Signed(Fin(v.neg, Shl(v.mag, d))) == Shl(Signed(v), d)
  {
    ShlNat(v.mag, d);
    ShlZero(d);
    ShlAdd(0, v.mag, d);
  }

  /** The sum of two widened numbers, rounded in g, does not overflow. */
  lemma WideSum(g: Format, f: Format, dir: Direction, neg: bool, s: nat)
    requires ExtendsForSums(g, f) && s < 2 * Limit(f)
    ensures Shl(s, Extra(g, f)) >= 0
    ensures Round(g, dir, neg, Shl(s, Extra(g, f)), 0)
         == Fin(neg, RoundMag(Prec(g), ModeFor(dir, neg), Shl(s, Extra(g, f)), 0))
  {
    var d, l := Extra(g, f), Prec(f) + TopExp(f);
    ShlNat(s, d);
    RoundBelow(Prec(g), ModeFor(dir, neg), s, d, Shl(s, d), l + 1);
    Pow2Mono(l + 1 + d, Prec(g) + TopExp(g));
  }

  /** What is exactly s in units of f, rounded in g and then to f. */
  lemma NarrowedSum(g: Format, f: Format, dir: Direction, a: nat, b: nat, s: nat, neg: bool)
    requires ExtendsForSums(g, f) && Representable(Prec(f), a) && Representable(Prec(f), b)
    requires a < Limit(f) && b < Limit(f) && (s == a + b || s == Distance(a, b))
    ensures Shl(s, Extra(g, f)) >= 0
    ensures Convert(g, f, dir, Round(g, dir, neg, Shl(s, Extra(g, f)), 0)) == Round(f, dir, neg, s, 0)
  {
    var m := ModeFor(dir, neg);
    WideSum(g, f, dir, neg, s);
    NarrowRounds(g, f, dir, neg, RoundMag(Prec(g), m, Shl(s, Extra(g, f)), 0));
    SumRoundedTwice(Prec(f), Prec(g), m, a, b, s, Extra(g, f), Shl(s, Extra(g, f)));
  }

  lemma NarrowedZero(g: Format, f: Format, dir: Direction, neg: bool)
    requires Extends(g, f)
    ensures Convert(g, f, dir, Fin(neg, 0)) == Fin(neg, 0)
  {
    NarrowRounds(g, f, dir, neg, 0);
    RoundZero(Prec(f), ModeFor(dir, neg), Extra(g, f));
  }

  /** The sum of two numbers, both scaled by 2^d. */
  lemma ScaledSum(v: Num, w: Num, v': Num, w': Num, d: nat)
    requires v.Fin? && w.Fin? && Shl(v.mag, d) >= 0 && Shl(w.mag, d) >= 0
    requires v' == Fin(v.neg, Shl(v.mag, d)) && w' == Fin(w.neg, Shl(w.mag, d))
    ensures var s, s' := Signed(v) + Signed(w), Signed(v') + Signed(w');
      && Shl(Abs(s), d) == Abs(s')
      && (s == 0 <==> s' == 0) && (s < 0 <==> s' < 0)
  {
    var s := Signed(v) + Signed(w);
    SignedShl(v, d);
    SignedShl(w, d);
    ShlAdd(Signed(v), Signed(w), d);
    SignedShl(Fin(s < 0, Abs(s)), d);
    ShlZero(d);
    ShlMono(s, 0, d);
    ShlMono(0, s, d);
  }

  lemma FiniteSumInWider(g: Format, f: Format, dir: Direction, v: Num, w: Num, v': Num, w': Num)
    requires ExtendsForSums(g, f) && IsNum(f, v) && IsNum(f, w) && v.Fin? && w.Fin?
    requires Shl(v.mag, Extra(g, f)) >= 0 && Shl(w.mag, Extra(g, f)) >= 0
    requires v' == Fin(v.neg, Shl(v.mag, Extra(g, f))) && w' == Fin(w.neg, Shl(w.mag, Extra(g, f)))
    ensures Convert(g, f, dir, Add(g, dir, v', w')) == Add(f, dir, v, w)
  {
    var s, s' := Signed(v) + Signed(w), Signed(v') + Signed(w');
    ScaledSum(v, w, v', w', Extra(g, f));
    if s == 0 {
      NarrowedZero(g, f, dir, if v.neg == w.neg then v.neg else dir == Downward);
    } else {
      AddNonzero(f, dir, v, w, s);
      AddNonzero(g, dir, v', w', s');
      NarrowedSum(g, f, dir, v.mag, w.mag, Abs(s), s < 0);
    }
  }

  /** Adding floats in double and converting the sum to float rounds as if only once. */
  lemma SumInWider(g: Format, f: Format, dir: Direction, v: Num, w: Num)
    requires ExtendsForSums(g, f) && IsNum(f, v) && IsNum(f, w)
    ensures Convert(g, f, dir, Add(g, dir, Convert(f, g, dir, v), Convert(f, g, dir, w))) == Add(f, dir, v, w)
  {
    WidenIsExact(g, f, dir, v);
    WidenIsExact(g, f, dir, w);
    if v.Fin? && w.Fin? {
      FiniteSumInWider(g, f, dir, v, w, Convert(f, g, dir, v), Convert(f, g, dir, w));
    }
  }

  lemma DifferenceInWider(g: Format, f: Format, dir: Direction, v: Num, w: Num)
    requires ExtendsForSums(g, f) && IsNum(f, v) && IsNum(f, w)
    ensures Convert(g, f, dir, Sub(g, dir, Convert(f, g, dir, v), Convert(f, g, dir, w))) == Sub(f, dir, v, w)
  {
    WidenIsExact(g, f, dir, w);
    WidenIsExact(g, f, dir, Negate(w));
    SumInWider(g, f, dir, v, Negate(w));
  }

  lemma DoubleExtendsFloatForSums()
    ensures ExtendsForSums(B64, B32)
  {
    Constants();
    DoubleExtendsFloat();
  }
}
