/** round, roundf, lround and llround: to the nearest integer, halfway cases away
    from zero, whatever rounding direction the control word asks for. */
module Rounding {
  import opened Binary
  import opened Ieee754
  import opened Arithmetic
  import opened Wrappers
  import Directions
  import Scaling

  /** x / 2^k to the nearest integer, halfway cases up: ISO/IEC 9899:1999 section 7.12.9.6
      for a magnitude of x units when 1.0 is 2^k units. */
  function HalfAway(x: nat, k: nat): nat {
    if 2 * Low(x, k) < Pow2(k) then Shr(x, k) else Shr(x, k) + 1
  }

  function RoundAway(f: Format, v: Num): Num {
    match v
    case NaN => NaN
    case Inf(neg) => Inf(neg)
    case Fin(neg, mag) => var i := HalfAway(mag, OneExp(f)); ShlNat(i, OneExp(f)); Fin(neg, Shl(i, OneExp(f)))
  }

  /** i is the nearest integer to x / 2^k and, of two equally near, the larger. */
  ghost predicate IsNearestAway(x: nat, k: nat, i: nat) {
    forall j: nat {:trigger Shl(j, k)} | j != i ::
      || Distance(Shl(i, k), x) < Distance(Shl(j, k), x)
      || (Distance(Shl(i, k), x) == Distance(Shl(j, k), x) && j < i)
  }

  lemma HalfAwayIsNearest(x: nat, k: nat, i: nat)
    ensures IsNearestAway(x, k, i) <==> i == HalfAway(x, k)
    ensures 2 * Distance(Shl(HalfAway(x, k), k), x) <= Pow2(k)
  {
    var h, q := HalfAway(x, k), Shr(x, k);
    ShlAdd(q, 1, k);
    forall j: nat | j != h
      ensures || Distance(Shl(h, k), x) < Distance(Shl(j, k), x)
              || (Distance(Shl(h, k), x) == Distance(Shl(j, k), x) && j < h)
    {
      ShlMono(j, q, k);
      ShlMono(q + 1, j, k);
    }
    assert IsNearestAway(x, k, h);
    assert i != h ==> Distance(Shl(h, k), x) <= Distance(Shl(i, k), x);
  }

  lemma HalfAwayMono(x: nat, y: nat, k: nat)
    requires x <= y
    ensures HalfAway(x, k) <= HalfAway(y, k)
  {
    ShrBounds(x, k);
    ShrBounds(y, k);
    ShlMono(Shr(x, k), Shr(y, k) + 1, k);
  }

  lemma HalfAwayOfInteger(i: nat, k: nat)
    ensures Shl(i, k) >= 0 && HalfAway(Shl(i, k), k) == i
  {
    ShlNat(i, k);
    LowUnique(Shl(i, k), k, i, 0);
  }

  lemma IntegerWhenLarge(p: nat, x: nat, k: nat)
    requires p >= 1 && Representable(p, x) && x >= Pow2(p - 1 + k)
    ensures x == Shl(Shr(x, k), k) && HalfAway(x, k) == Shr(x, k)
  {
    var c, j := RepresentableForm(p, x);
    ShlNat(c, j);
    if j < k {
      ShlMono(c, Pow2(p), j);
      ShlShl(1, p, j);
      Pow2Mono(p + j, p - 1 + k);
    } else {
      ShlNat(c, j - k);
      ShlShl(c, j - k, k);
      LowUnique(x, k, Shl(c, j - k), 0);
    }
  }

  /** The nearest integer to a number of the format is a number of the format. */
  lemma RoundAwayIsNum(f: Format, v: Num)
    requires IsNum(f, v)
    ensures IsNum(f, RoundAway(f, v))
    ensures v.Fin? && v.mag >= Pow2(Prec(f) - 1 + OneExp(f)) ==> RoundAway(f, v) == v
  {
    if v.Fin? {
      var p, k := Prec(f), OneExp(f);
      if v.mag >= Pow2(p - 1 + k) {
        IntegerWhenLarge(p, v.mag, k);
      } else {
        var i := HalfAway(v.mag, k);
        ShlShl(1, p - 1, k);
        ShlMono(Shr(v.mag, k), Pow2(p - 1), k);
        RepresentableShl(p, i, k);
        ShlMono(i, Pow2(p - 1), k);
        Pow2Mono(p - 1 + k, p + TopExp(f));
      }
    }
  }

  lemma RoundAwayMonoMag(f: Format, x: nat, y: nat)
    ensures 0 <= Shl(HalfAway(x, OneExp(f)), OneExp(f))
    ensures x <= y ==> Shl(HalfAway(x, OneExp(f)), OneExp(f)) <= Shl(HalfAway(y, OneExp(f)), OneExp(f))
  {
    var k := OneExp(f);
    ShlNat(HalfAway(x, k), k);
    if x <= y {
      HalfAwayMono(x, y, k);
      ShlMono(HalfAway(x, k), HalfAway(y, k), k);
    }
  }

  /** The nearest integer of a number, in units and with its sign; NaN and infinities come back. */
  lemma RoundAwayIsNearest(f: Format, v: Num, i: nat)
    ensures !v.Fin? ==> RoundAway(f, v) == v
    ensures Shl(i, OneExp(f)) >= 0
    ensures v.Fin? ==>
      (RoundAway(f, v) == Fin(v.neg, Shl(i, OneExp(f))) <==> IsNearestAway(v.mag, OneExp(f), i))
  {
    ShlNat(i, OneExp(f));
    if v.Fin? {
      var h := HalfAway(v.mag, OneExp(f));
      HalfAwayIsNearest(v.mag, OneExp(f), i);
      ShlMono(h, i, OneExp(f));
      ShlMono(i, h, OneExp(f));
    }
  }

  /** Rounding keeps order. */
  lemma RoundAwayMono(f: Format, v: Num, w: Num)
    requires IsNum(f, v) && IsNum(f, w) && v != NaN && w != NaN
    requires Position(f, v) <= Position(f, w)
    ensures Position(f, RoundAway(f, v)) <= Position(f, RoundAway(f, w))
  {
    RoundAwayIsNum(f, v);
    RoundAwayIsNum(f, w);
    if v.Fin? && w.Fin? {
      RoundAwayMonoMag(f, v.mag, w.mag);
      RoundAwayMonoMag(f, w.mag, v.mag);
      ShlZero(OneExp(f));
      HalfAwayOfInteger(0, OneExp(f));
    }
  }

  /** Rounding is idempotent, commutes with negation, and moves a number by at most 1/2. */
  lemma RoundAwayProperties(f: Format, v: Num)
    ensures RoundAway(f, RoundAway(f, v)) == RoundAway(f, v)
    ensures RoundAway(f, Negate(v)) == Negate(RoundAway(f, v))
    ensures v.Fin? ==> 2 * Distance(Signed(RoundAway(f, v)), Signed(v)) <= One(f)
  {
    if v.Fin? {
      HalfAwayOfInteger(HalfAway(v.mag, OneExp(f)), OneExp(f));
      HalfAwayIsNearest(v.mag, OneExp(f), 0);
    }
  }

  // ---- round ----

  /** 2^(p-1), from which on every number of the format is an integer: 0x1p52 for double. */
  function Big(f: Format): Num {
    Fin(false, Pow2(Prec(f) - 1 + OneExp(f)))
  }

  /** The integer that x + 2^(p-1) is rounded to, less 2^(p-1), when 1.0 is 2^k units and
      the sum has its last digit at 1.0: the direction decides between the two integers
      around x, and only if x is not an integer itself. */
  lemma FirstSumMag(p: nat, m: Mode, x: nat, k: nat) returns (i: nat)
    requires p >= 1 && x < Pow2(p - 1 + k)
    ensures Shr(x, k) <= i <= Shr(x, k) + 1 <= Pow2(p - 1)
    ensures Low(x, k) == 0 ==> i == Shr(x, k)
    ensures RoundMag(p, m, x + Pow2(p - 1 + k), 0) == Shl(Pow2(p - 1) + i, k)
  {
    var c := Pow2(p - 1);
    var n := x + Pow2(p - 1 + k);
    ShlShl(1, p - 1, k);
    ShlAdd(c, Shr(x, k), k);
    LowUnique(n, k, c + Shr(x, k), Low(x, k));
    ShrBounds(x, k);
    ShlMono(Shr(x, k), c, k);
    RoundAt(p, m, n, 0, k);
    RoundIntBounds(m, n, k);
    i := RoundInt(m, n, k) - c;
  }

  lemma SumFitsFormat(f: Format, i: nat)
    requires i <= Pow2(Prec(f) - 1)
    ensures 0 <= Shl(Pow2(Prec(f) - 1) + i, OneExp(f)) == Shl(i, OneExp(f)) + Big(f).mag < Limit(f)
  {
    var p, k := Prec(f), OneExp(f);
    ShlNat(i, k);
    ShlShl(1, p - 1, k);
    ShlAdd(Pow2(p - 1), i, k);
    ShlMono(i, Pow2(p - 1), k);
    Pow2Mono(p + k, p + TopExp(f) - 1);
  }

  /** The sum x + 2^(p-1) as the format computes it. */
  lemma FirstSum(f: Format, dir: Direction, x: nat) returns (i: nat)
    requires x < Big(f).mag
    ensures Shr(x, OneExp(f)) <= i <= Shr(x, OneExp(f)) + 1 <= Pow2(Prec(f) - 1)
    ensures Low(x, OneExp(f)) == 0 ==> i == Shr(x, OneExp(f))
    ensures var s := Add(f, dir, Fin(false, x), Big(f)); s.Fin? && Signed(s) == Shl(i, OneExp(f)) + Big(f).mag
  {
    i := FirstSumMag(Prec(f), ModeFor(dir, false), x, OneExp(f));
    SumFitsFormat(f, i);
    AddIsRounded(f, dir, Fin(false, x), Big(f), x + Big(f).mag);
  }

  /** The integer next to x differs from x by at most x. */
  lemma DifferenceIsSmall(x: nat, k: nat, i: nat)
    requires k >= 1 && Pow2(k - 1) <= x
    requires Shr(x, k) <= i <= Shr(x, k) + 1 && (Low(x, k) == 0 ==> i == Shr(x, k))
    ensures Abs(Shl(i, k) - x) <= x
  {
    ShlAdd(Shr(x, k), 1, k);
    ShlZero(k);
    ShlNat(Shr(x, k), k);
    if Shr(x, k) >= 1 {
      ShlMono(1, Shr(x, k), k);
    }
  }

  lemma DifferenceShl(x: int, y: int, k: nat)
    ensures Abs(Shl(x, k) - Shl(y, k)) == Shl(Abs(x - y), k)
  {
    ShlZero(k);
    if x >= y {
      ShlAdd(x, y, k);
      ShlMono(y, x, k);
    } else {
      ShlAdd(y, x, k);
      ShlMono(x, y, k);
    }
  }

  lemma MultipleFits(p: nat, e: int, c: nat, j: nat)
    requires c < Pow2(p) && Abs(Shl(e, j) - Shl(c, j)) <= Shl(c, j)
    ensures Representable(p, Abs(Shl(e, j) - Shl(c, j)))
  {
    DifferenceShl(e, c, j);
    ShlMono(Abs(e - c), c, j);
    RepresentableShl(p, Abs(e - c), j);
  }

  /** The integer next to x differs from x by a number of the format. */
  lemma DifferenceFits(p: nat, x: nat, k: nat, i: nat)
    requires p >= 2 && k >= 1 && Representable(p, x) && Pow2(k - 1) <= x < Pow2(p - 1 + k)
    requires Shr(x, k) <= i <= Shr(x, k) + 1 && (Low(x, k) == 0 ==> i == Shr(x, k))
    ensures Representable(p, Abs(Shl(i, k) - x)) && Abs(Shl(i, k) - x) <= x
  {
    DifferenceIsSmall(x, k, i);
    var c, j := RepresentableForm(p, x);
    if j > k {
      ShlMono(Pow2(p - 1), c, j);
      ShlShl(1, p - 1, j);
      Pow2Mono(p - 1 + k, p - 1 + j);
    }
    ShlShl(i, k - j, j);
    MultipleFits(p, Shl(i, k - j), c, j);
  }

  lemma IntegerFits(f: Format, i: nat)
    requires i <= Pow2(Prec(f) - 1)
    ensures 0 <= Shl(i, OneExp(f)) < Limit(f) && Representable(Prec(f), Shl(i, OneExp(f)))
  {
    var p, k := Prec(f), OneExp(f);
    ShlNat(i, k);
    ShlShl(1, p - 1, k);
    ShlMono(i, Pow2(p - 1), k);
    RepresentableShl(p, i, k);
    Pow2Mono(p - 1 + k, p + TopExp(f));
  }

  /** The double that C makes of a comparison's int result. */
  function Flag(f: Format, b: bool): Num {
    Fin(false, if b then One(f) else 0)
  }

  /** `(double)(x + 0x1p52) - 0x1p52 - x` */
  function Correction(f: Format, dir: Direction, v: Num): Num {
    Sub(f, dir, Sub(f, dir, Add(f, dir, v, Big(f)), Big(f)), v)
  }

  /** C's `<=` */
  predicate LessEq(f: Format, a: Num, b: Num) {
    a != NaN && b != NaN && Position(f, a) <= Position(f, b)
  }

  /** `y + x - (y > 0.5) + (y <= -0.5)` */
  function Corrected(f: Format, dir: Direction, v: Num, y: Num): Num {
    Add(f, dir,
      Sub(f, dir, Add(f, dir, y, v), Flag(f, Less(f, Half(f), y))),
      Flag(f, LessEq(f, y, Negate(Half(f)))))
  }

  lemma BigSubtracted(f: Format, dir: Direction, i: nat, sum: Num)
    requires i <= Pow2(Prec(f) - 1) && sum.Fin? && Signed(sum) == Shl(i, OneExp(f)) + Big(f).mag
    ensures Sub(f, dir, sum, Big(f)).Fin? && Signed(Sub(f, dir, sum, Big(f))) == Shl(i, OneExp(f))
  {
    IntegerFits(f, i);
    AddExact(f, dir, sum, Negate(Big(f)));
  }

  lemma ArgumentSubtracted(f: Format, dir: Direction, x: nat, i: nat, t: Num)
    requires Representable(Prec(f), x) && Pow2(OneExp(f) - 1) <= x < Big(f).mag
    requires Shr(x, OneExp(f)) <= i <= Shr(x, OneExp(f)) + 1 && (Low(x, OneExp(f)) == 0 ==> i == Shr(x, OneExp(f)))
    requires t.Fin? && Signed(t) == Shl(i, OneExp(f))
    ensures Sub(f, dir, t, Fin(false, x)).Fin? && Signed(Sub(f, dir, t, Fin(false, x))) == Shl(i, OneExp(f)) - x
  {
    DifferenceFits(Prec(f), x, OneExp(f), i);
    Pow2Mono(Prec(f) - 1 + OneExp(f), Prec(f) + TopExp(f));
    AddExact(f, dir, t, Fin(true, x));
  }

  /** The difference y is exact: the integer i that the direction chose, minus x. */
  lemma CorrectionIsExact(f: Format, dir: Direction, x: nat) returns (i: nat)
    requires Representable(Prec(f), x) && Pow2(OneExp(f) - 1) <= x < Pow2(Prec(f) - 1 + OneExp(f))
    ensures Shr(x, OneExp(f)) <= i <= Shr(x, OneExp(f)) + 1 <= Pow2(Prec(f) - 1)
    ensures Low(x, OneExp(f)) == 0 ==> i == Shr(x, OneExp(f))
    ensures Correction(f, dir, Fin(false, x)).Fin?
    ensures Signed(Correction(f, dir, Fin(false, x))) == Shl(i, OneExp(f)) - x
  {
    i := FirstSum(f, dir, x);
    var sum := Add(f, dir, Fin(false, x), Big(f));
    BigSubtracted(f, dir, i, sum);
    ArgumentSubtracted(f, dir, x, i, Sub(f, dir, sum, Big(f)));
  }

  /** Comparing the difference with 1/2 and -1/2 finds the nearest integer, ties upward, from
      either neighbour. */
  lemma CorrectionDecides(x: nat, k: nat, i: nat) returns (down: nat, up: nat)
    requires k >= 1 && Pow2(k - 1) <= x && Shr(x, k) <= i <= Shr(x, k) + 1
    requires Low(x, k) == 0 ==> i == Shr(x, k)
    ensures down == (if Shl(i, k) - x > Pow2(k - 1) then 1 else 0)
    ensures up == (if Shl(i, k) - x <= 0 - Pow2(k - 1) then 1 else 0)
    ensures i - down >= 0 && HalfAway(x, k) == i - down + up > 0
    ensures Shl(i - down, k) == Shl(i, k) - (if down == 1 then Pow2(k) else 0)
    ensures Shl(i - down + up, k) == Shl(i - down, k) + (if up == 1 then Pow2(k) else 0)
  {
    ShlAdd(Shr(x, k), 1, k);
    ShlAdd(i, 1, k);
    ShlZero(k);
    down := if Shl(i, k) - x > Pow2(k - 1) then 1 else 0;
    up := if Shl(i, k) - x <= 0 - Pow2(k - 1) then 1 else 0;
    ShlAdd(i - down, up, k);
  }

  lemma FlagsCompare(f: Format, y: Num, d: int)
    requires y.Fin? && Signed(y) == d
    ensures Signed(Flag(f, Less(f, Half(f), y))) == if d > Pow2(OneExp(f) - 1) then Pow2(OneExp(f)) else 0
    ensures Signed(Flag(f, LessEq(f, y, Negate(Half(f)))))
         == if d <= 0 - Pow2(OneExp(f) - 1) then Pow2(OneExp(f)) else 0
  {
  }

  /** A sum that is an integer of at most p - 1 bits is computed exactly. */
  lemma IntegerSum(f: Format, dir: Direction, a: Num, b: Num, i: nat) returns (s: Num)
    requires a.Fin? && b.Fin? && i <= Pow2(Prec(f) - 1)
    requires Signed(a) + Signed(b) == Shl(i, OneExp(f))
    ensures s == Add(f, dir, a, b) && s.Fin? && Signed(s) == Shl(i, OneExp(f))
  {
    IntegerFits(f, i);
    AddExact(f, dir, a, b);
    s := Add(f, dir, a, b);
  }

  lemma ThreeSums(f: Format, dir: Direction, y: Num, v: Num, dn: Num, u: Num, i: nat, j: nat, h: nat)
    requires y.Fin? && v.Fin? && dn.Fin? && u.Fin?
    requires i <= Pow2(Prec(f) - 1) && j <= Pow2(Prec(f) - 1) && 0 < h <= Pow2(Prec(f) - 1)
    requires Signed(y) + Signed(v) == Shl(i, OneExp(f))
    requires Shl(i, OneExp(f)) - Signed(dn) == Shl(j, OneExp(f))
    requires Shl(j, OneExp(f)) + Signed(u) == Shl(h, OneExp(f))
    ensures Shl(h, OneExp(f)) >= 0
    ensures Add(f, dir, Sub(f, dir, Add(f, dir, y, v), dn), u) == Fin(false, Shl(h, OneExp(f)))
  {
    var s := IntegerSum(f, dir, y, v, i);
    var t := IntegerSum(f, dir, s, Negate(dn), j);
    var r := IntegerSum(f, dir, t, u, h);
    ShlZero(OneExp(f));
    ShlMono(0, h, OneExp(f));
  }

  /** The correction repairs whatever the direction did to the first sum. */
  lemma CorrectedIsHalfAway(f: Format, dir: Direction, x: nat, y: Num, i: nat)
    requires Pow2(OneExp(f) - 1) <= x
    requires Shr(x, OneExp(f)) <= i <= Shr(x, OneExp(f)) + 1 <= Pow2(Prec(f) - 1)
    requires Low(x, OneExp(f)) == 0 ==> i == Shr(x, OneExp(f))
    requires y.Fin? && Signed(y) == Shl(i, OneExp(f)) - x
    ensures Corrected(f, dir, Fin(false, x), y) == RoundAway(f, Fin(false, x))
  {
    var down, up := CorrectionDecides(x, OneExp(f), i);
    var dn, u := Flag(f, Less(f, Half(f), y)), Flag(f, LessEq(f, y, Negate(Half(f))));
    FlagsCompare(f, y, Shl(i, OneExp(f)) - x);
    ThreeSums(f, dir, y, Fin(false, x), dn, u, i, i - down, i - down + up);
  }

  /** What the exponent field says about the size of a magnitude. */
  lemma ExponentSize(f: Format, w: nat, j: nat)
    requires Value(f, w).Fin? && j >= 1
    ensures ExpField(f, w) >= j <==> Value(f, w).mag >= Pow2(f.mb + j - 1)
  {
    var e, c := ExpField(f, w), Pow2(f.mb) + FracField(f, w);
    if e == 0 {
      Pow2Mono(f.mb, f.mb + j - 1);
    } else {
      Scaling.ScaledBounds(f.mb + 1, c, e - 1, f.mb + j - 1);
      if e >= j {
        Pow2Mono(f.mb + j - 1, f.mb + e - 1);
      }
    }
  }

  lemma RoundExponents(w: Double)
    ensures ExpField(B64, w) >= 0x3ff + 52 ==> RoundAway(B64, V(w)) == V(w)
    ensures V(w).Fin? && ExpField(B64, w) < 0x3ff + 52 ==> V(w).mag < Pow2(52 + 1074)
    ensures V(w).Fin? ==> (ExpField(B64, w) < 0x3ff - 1 <==> V(w).mag < Pow2(1073))
  {
    Constants();
    RoundAwayIsNum(B64, V(w));
    if V(w).Fin? {
      ExponentSize(B64, w, 0x3ff + 52);
      ExponentSize(B64, w, 0x3ff - 1);
    }
  }

  method IntToDouble(b: bool) returns (r: Double)
    ensures V(r) == Flag(B64, b)
  {
    Constants();
    PowRepresentable(53, 1074);
    PowRepresentable(53, 0);
    Pow2Mono(1074, 2098);
    r := D(Flag(B64, b));
  }

  /** `y + x - (y > 0.5) + (y <= -0.5)` */
  method Correct(dir: Direction, x: Double, y: Double) returns (r: Double)
    ensures V(r) == Corrected(B64, dir, V(x), V(y))
  {
    Constants();
    var half := Scaling.PowerOfTwo(-1);
    var minusHalf := Neg64(half);
    var down := IntToDouble(Less(B64, V(half), V(y)));
    var up := IntToDouble(LessEq(B64, V(y), V(minusHalf)));
    r := Add64(dir, y, x);
    r := Sub64(dir, r, down);
    r := Add64(dir, r, up);
  }

  /** `(double)(x + 0x1p52) - 0x1p52 - x` */
  method Deviation(dir: Direction, x: Double) returns (y: Double)
    ensures V(y) == Correction(B64, dir, V(x))
  {
    Constants();
    var big := Scaling.PowerOfTwo(52);
    y := Add64(dir, x, big);
    y := Sub64(dir, y, big);
    y := Sub64(dir, y, x);
  }

  /** The sum, difference and correction that round computes for 1/2 <= x < 2^52. */
  method RoundPositive(dir: Direction, x: Double) returns (y: Double)
    requires V(x).Fin? && !V(x).neg && Pow2(1073) <= V(x).mag < Pow2(52 + 1074)
    ensures V(y) == RoundAway(B64, V(x))
  {
    Constants();
    ghost var i := CorrectionIsExact(B64, dir, V(x).mag);
    y := Deviation(dir, x);
    CorrectedIsHalfAway(B64, dir, V(x).mag, V(y), i);
    y := Correct(dir, x, y);
  }

  /** `0 * u.f` keeps the sign of a number below 1/2. */
  lemma RoundToZero(dir: Direction, v: Num)
    requires v.Fin? && v.mag < Pow2(1073)
    ensures Mul(B64, dir, Flag(B64, false), v) == RoundAway(B64, v)
  {
    Constants();
    Pow2Mono(1073, 1074);
    ShlZero(1074);
    LowUnique(v.mag, 1074, 0, v.mag);
    RoundZero(53, ModeFor(dir, v.neg), 1074);
  }

  /** round is exact in all four directions. */
  method Round(dir: Direction, x0: Double) returns (r: Double)
    ensures V(r) == RoundAway(B64, V(x0))
  {
    var x: Double, u: nat := x0, x0;
    DoubleFields(x0);
    RoundExponents(x0);
    var e: int := And(Shr(u, 52), 0x7ff);
    if e >= 0x3ff + 52 {
      return x;
    }
    if Shr(u, 63) != 0 {
      x := Neg64(x);
    }
    if e < 0x3ff - 1 {
      RoundToZero(dir, V(x0));
      var zero := IntToDouble(false);
      r := Mul64(dir, zero, x0);
      return;
    }
    r := RoundPositive(dir, x);
    if Shr(u, 63) != 0 {
      r := Neg64(r);
    }
  }

  // ---- roundf, lround, llround ----

  lemma {:induction false} HalfAwayScaled(x: nat, k: nat, d: nat)
    ensures Shl(x, d) >= 0 && HalfAway(Shl(x, d), k + d) == HalfAway(x, k)
    decreases d
  {
    ShlNat(x, d);
    if d != 0 {
      HalfAwayScaled(x, k, d - 1);
      var y := Shl(x, d - 1);
      LowUnique(2 * y, k + d, Shr(y, k + d - 1), 2 * Low(y, k + d - 1));
    }
  }

  /** Rounding in the wider format and narrowing loses nothing. */
  lemma RoundInWider(g: Format, f: Format, dir: Direction, v: Num)
    requires Scaling.Extends(g, f) && IsNum(f, v)
    ensures Convert(g, f, dir, RoundAway(g, Convert(f, g, dir, v))) == RoundAway(f, v)
  {
    Scaling.WidenIsExact(g, f, dir, v);
    if v.Fin? {
      var d, k := Scaling.Extra(g, f), OneExp(f);
      var i := HalfAway(v.mag, k);
      HalfAwayScaled(v.mag, k, d);
      ShlNat(i, k);
      ShlShl(i, k, d);
      RoundAwayIsNum(f, v);
      RoundExact(Prec(f), ModeFor(dir, v.neg), Shl(i, k), d);
      Scaling.NarrowRounds(g, f, dir, v.neg, Shl(i, k + d));
    }
  }

  method Roundf(dir: Direction, x: Float) returns (r: Float)
    ensures VF(r) == RoundAway(B32, VF(x))
  {
    var d := Widen(dir, x);
    d := Round(dir, d);
    r := Narrow(dir, d);
    Scaling.DoubleExtendsFloat();
    RoundInWider(B64, B32, dir, VF(x));
  }

  /** Conversion to a signed integer type of the given width, ISO/IEC 9899:1999 section
      6.3.1.4: the fraction is discarded, and the result is undefined (None) if it does not fit. */
  function ToInteger(f: Format, v: Num, width: nat): Option<int>
    requires width > 0
  {
    if !v.Fin? then None
    else
      var i := Shr(v.mag, OneExp(f));
      var s := if v.neg then 0 - i else i;
      if 0 - Pow2(width - 1) <= s < Pow2(width - 1) then Some(s) else None
  }

  /** The nearest integer to v, halfway cases away from zero. */
  function NearestInteger(f: Format, v: Num): int
    requires v.Fin?
  {
    var i := HalfAway(v.mag, OneExp(f));
    if v.neg then 0 - i else i
  }

  /** The integer that lround returns is the number that round returns. */
  lemma NearestIntegerIsRounded(f: Format, v: Num)
    requires v.Fin?
    ensures RoundAway(f, v).Fin? && Shl(NearestInteger(f, v), OneExp(f)) == Signed(RoundAway(f, v))
  {
    Directions.ShlNegative(HalfAway(v.mag, OneExp(f)), OneExp(f));
  }

  lemma ToIntegerOfRounded(f: Format, v: Num, width: nat)
    requires width > 0
    ensures ToInteger(f, RoundAway(f, v), width) ==
      if v.Fin? && 0 - Pow2(width - 1) <= NearestInteger(f, v) < Pow2(width - 1) then Some(NearestInteger(f, v))
      else None
  {
    if v.Fin? {
      ShrShl(HalfAway(v.mag, OneExp(f)), OneExp(f));
    }
  }

  /** lround with width 32, the size of `long` on Windows, and llround with width 64: the
      nearest integer whenever the type can hold it. */
  method RoundToInteger(dir: Direction, x: Double, width: nat) returns (r: Option<int>)
    requires width > 0
    ensures r == if V(x).Fin? && 0 - Pow2(width - 1) <= NearestInteger(B64, V(x)) < Pow2(width - 1)
                 then Some(NearestInteger(B64, V(x))) else None
  {
    var d := Round(dir, x);
    ToIntegerOfRounded(B64, V(x), width);
    r := ToInteger(B64, V(d), width);
  }

  /** A float has the same nearest integer whether it is looked at as a float or as a double. */
  lemma NearestIntegerWidened(g: Format, f: Format, dir: Direction, v: Num)
    requires Scaling.Extends(g, f) && IsNum(f, v) && v.Fin?
    ensures Convert(f, g, dir, v).Fin? && NearestInteger(g, Convert(f, g, dir, v)) == NearestInteger(f, v)
  {
    Scaling.WidenIsExact(g, f, dir, v);
    HalfAwayScaled(v.mag, OneExp(f), Scaling.Extra(g, f));
  }

  /** lroundf (width 32) and llroundf (width 64). */
  method RoundFloatToInteger(dir: Direction, x: Float, width: nat) returns (r: Option<int>)
    requires width > 0
    ensures r == if VF(x).Fin? && 0 - Pow2(width - 1) <= NearestInteger(B32, VF(x)) < Pow2(width - 1)
                 then Some(NearestInteger(B32, VF(x))) else None
  {
    var d := Widen(dir, x);
    r := RoundToInteger(dir, d, width);
    Scaling.DoubleExtendsFloat();
    if VF(x).Fin? {
      NearestIntegerWidened(B64, B32, dir, VF(x));
    }
  }
}
