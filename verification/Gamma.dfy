/** tgamma and lgamma: that their mutual recursion ends, what it returns where no
    approximation is involved, and when the factorials it multiplies up are correctly
    rounded. The format f is binary64 (IsDouble); 1.0 is 2^OneExp(f) units. */
module Gamma {
  import opened Binary
  import opened Ieee754
  import opened Arithmetic
  import opened Wrappers
  import Directions

  /** What is used of binary64: 53 bits of precision, and room for 2^80. */
  predicate IsDouble(f: Format) {
    Prec(f) == 53 && OneExp(f) + 81 <= TopExp(f)
  }

  lemma Binary64IsDouble()
    ensures IsDouble(B64)
  {
    Constants();
  }

  /** A nonnegative integer as a floating-point number. */
  function Int(f: Format, i: nat): Num {
    ShlNat(i, OneExp(f));
    Fin(false, Shl(i, OneExp(f)))
  }

  /** `x == floor(x)` for the exact floor: false for NaN, true for infinities. */
  predicate IsIntegral(f: Format, v: Num) {
    match v
    case NaN => false
    case Inf(_) => true
    case Fin(_, mag) => Low(mag, OneExp(f)) == 0
  }

  // ---- the recursion ----

  /** A pending call. */
  datatype Pending = Tgamma(x: Num) | Lgamma(x: Num)

  /** The call that a call makes of the two functions, if it makes one. */
  function Next(f: Format, dir: Direction, c: Pending): Option<Pending> {
    match c
    case Tgamma(x) =>
      if IsIntegral(f, x) && (x == Fin(x.neg, 0) || Less(f, x, Int(f, 0)) || Less(f, x, Int(f, 26))) then None
      else if Less(f, x, Half(f)) then Some(Tgamma(Sub(f, dir, Int(f, 1), x)))
      else if Less(f, Int(f, 12), x) then Some(Lgamma(x))
      else None
    case Lgamma(x) =>
      if !Less(f, x, Int(f, 12)) then None
      else if !Less(f, Int(f, 0), x) && IsIntegral(f, x) then None
      else Some(Tgamma(x))
  }

  /** How many further calls there can be. */
  function CallRank(f: Format, c: Pending): nat {
    match c
    case Tgamma(x) => if Less(f, x, Half(f)) then 2 else if Less(f, Int(f, 12), x) then 1 else 0
    case Lgamma(x) => if Less(f, x, Int(f, 12)) then 3 else 0
  }

  lemma HalfLimit(f: Format, x: nat)
    requires x <= Pow2(Prec(f) + TopExp(f) - 1)
    ensures x <= MaxMag(f) < Limit(f)
  {
    MaxMagIsNum(f);
    assert Limit(f) == 2 * Pow2(Prec(f) + TopExp(f) - 1);
  }

  lemma IntFits(f: Format, i: nat, l: nat)
    requires Representable(Prec(f), i) && i < Pow2(l) && OneExp(f) + l <= TopExp(f)
    ensures IsNum(f, Int(f, i)) && Int(f, i).mag <= MaxMag(f)
  {
    RepresentableShl(Prec(f), i, OneExp(f));
    ShlBelow(i, l, OneExp(f));
    Pow2Mono(l + OneExp(f), Prec(f) + TopExp(f) - 1);
    HalfLimit(f, Int(f, i).mag);
  }

  /** Integers that fit are numbers of the format. */
  lemma IntIsNum(f: Format, i: nat)
    requires IsDouble(f) && Representable(Prec(f), i) && i < Pow2(81)
    ensures IsNum(f, Int(f, i)) && Int(f, i).mag <= MaxMag(f)
  {
    IntFits(f, i, 81);
  }

  lemma SmallInt(f: Format, i: nat)
    requires IsDouble(f) && i < 64
    ensures IsNum(f, Int(f, i)) && Int(f, i).mag <= MaxMag(f) && Representable(Prec(f), Int(f, i).mag)
  {
    assert Pow2(6) == 64;
    Pow2Mono(6, Prec(f));
    Pow2Mono(6, 81);
    IntIsNum(f, i);
  }

  lemma IntOrder(f: Format, i: nat, j: nat)
    ensures Less(f, Int(f, i), Int(f, j)) <==> i < j
    ensures i == 0 ==> Int(f, i) == Fin(false, 0)
    ensures i > 0 ==> Less(f, Half(f), Int(f, i))
  {
    ShlMono(i, j, OneExp(f));
    ShlZero(OneExp(f));
    if i > 0 {
      ShlMono(1, i, OneExp(f));
    }
  }

  /** Rounding never crosses a number of the format. */
  lemma RoundAtLeast(f: Format, dir: Direction, h: nat, d: nat)
    requires Representable(Prec(f), h) && h <= d && h <= MaxMag(f)
    ensures Round(f, dir, false, d, 0) != NaN && Position(f, Round(f, dir, false, d, 0)) >= h
  {
    MaxMagIsNum(f);
    RoundExact(Prec(f), ModeFor(dir, false), h, 0);
    RoundMono(Prec(f), ModeFor(dir, false), h, d, 0);
  }

  lemma DifferenceAtLeastHalf(f: Format, dir: Direction, x: Num, h: nat)
    requires IsNum(f, x) && Less(f, x, Fin(false, h))
    requires Representable(Prec(f), h) && h <= MaxMag(f)
    ensures !Less(f, Sub(f, dir, Fin(false, 2 * h), x), Fin(false, h)) && Sub(f, dir, Fin(false, 2 * h), x) != NaN
  {
    MaxMagIsNum(f);
    if x.Fin? {
      var d := 2 * h - Signed(x);
      SubIsRounded(f, dir, Fin(false, 2 * h), x, d);
      RoundAtLeast(f, dir, h, d);
    }
  }

  /** 1.0 - x is at least 0.5 after rounding, in every direction, when x < 0.5. */
  lemma ReflectionLeaves(f: Format, dir: Direction, x: Num)
    requires IsDouble(f) && IsNum(f, x) && Less(f, x, Half(f))
    ensures !Less(f, Sub(f, dir, Int(f, 1), x), Half(f)) && Sub(f, dir, Int(f, 1), x) != NaN
  {
    PowRepresentable(Prec(f), OneExp(f) - 1);
    Pow2Mono(OneExp(f), Prec(f) + TopExp(f));
    MaxMagIsNum(f);
    DifferenceAtLeastHalf(f, dir, x, Pow2(OneExp(f) - 1));
  }

  /** Every call leads to a call of smaller rank: the recursion ends for every double,
      NaN and infinities included. */
  lemma RankDecreases(f: Format, dir: Direction, c: Pending)
    requires IsDouble(f) && IsNum(f, c.x)
    ensures Next(f, dir, c).Some? ==>
      CallRank(f, Next(f, dir, c).value) < CallRank(f, c) && IsNum(f, Next(f, dir, c).value.x)
  {
    IntOrder(f, 12, 12);
    if c.Tgamma? && Less(f, c.x, Half(f)) {
      SmallInt(f, 1);
      ReflectionLeaves(f, dir, c.x);
      OperationsGiveNumbers(f, dir, Int(f, 1), c.x);
    }
  }

  /** The number of calls of tgamma and lgamma that a call gives rise to, itself included. */
  function CallCount(f: Format, dir: Direction, c: Pending): (n: nat)
    requires IsDouble(f) && IsNum(f, c.x)
    ensures 1 <= n <= 1 + CallRank(f, c) <= 4
    decreases CallRank(f, c)
  {
    RankDecreases(f, dir, c);
    match Next(f, dir, c)
    case None => 1
    case Some(c') => 1 + CallCount(f, dir, c')
  }

  /** q + 1/2 is not an integer. */
  lemma OddHalves(k: nat, q: nat)
    requires k >= 1
    ensures Shl(2 * q + 1, k - 1) >= 0 && Low(Shl(2 * q + 1, k - 1), k) == Pow2(k - 1)
  {
    ShlAdd(2 * q, 1, k - 1);
    ShlAdd(q, q, k - 1);
    ShlNat(q, k);
    ShlNat(2 * q + 1, k - 1);
    LowUnique(Shl(2 * q + 1, k - 1), k, q, Pow2(k - 1));
  }

  lemma HalfIntegers(k: nat)
    requires k >= 1
    ensures 0 < Pow2(k - 1) < Shl(12, k) < Shl(43, k - 1) == Shl(41, k - 1) + Shl(1, k)
    ensures Shl(41, k - 1) > 0 && Shl(0, k) == 0
    ensures Low(Shl(41, k - 1), k) != 0 && Low(Shl(43, k - 1), k) != 0
  {
    ShlMono(1, 24, k - 1);
    ShlMono(24, 43, k - 1);
    ShlMono(1, 41, k - 1);
    OddHalves(k, 20);
    OddHalves(k, 21);
    ShlAdd(12, 12, k - 1);
    ShlAdd(41, 2, k - 1);
    ShlAdd(1, 1, k - 1);
    ShlZero(k);
  }

  /** The calls behind lgamma(-20.5), r being 21.5. */
  lemma FourPending(f: Format, dir: Direction, x: Num, r: Num)
    requires IsDouble(f) && Shl(41, OneExp(f) - 1) >= 0 && Shl(43, OneExp(f) - 1) >= 0
    requires x == Fin(true, Shl(41, OneExp(f) - 1)) && r == Fin(false, Shl(43, OneExp(f) - 1))
    ensures Next(f, dir, Lgamma(x)) == Some(Tgamma(x))
    ensures Sub(f, dir, Int(f, 1), x) == r ==> Next(f, dir, Tgamma(x)) == Some(Tgamma(r))
    ensures Next(f, dir, Tgamma(r)) == Some(Lgamma(r))
    ensures Next(f, dir, Lgamma(r)) == None
  {
    HalfIntegers(OneExp(f));
  }

  lemma HalfIsNum(f: Format, i: nat)
    requires IsDouble(f) && i <= 44
    ensures 0 <= Shl(i, OneExp(f) - 1) < Limit(f) && Representable(Prec(f), Shl(i, OneExp(f) - 1))
  {
    assert Pow2(6) == 64;
    Pow2Mono(6, Prec(f));
    RepresentableShl(Prec(f), i, OneExp(f) - 1);
    ShlMono(i, 44, OneExp(f) - 1);
    ShlAdd(22, 22, OneExp(f) - 1);
    SmallInt(f, 22);
    MaxMagIsNum(f);
  }

  lemma ReflectedHalf(f: Format, dir: Direction, x: Num, r: Num)
    requires IsDouble(f) && Shl(41, OneExp(f) - 1) >= 0 && Shl(43, OneExp(f) - 1) >= 0
    requires x == Fin(true, Shl(41, OneExp(f) - 1)) && r == Fin(false, Shl(43, OneExp(f) - 1))
    ensures Sub(f, dir, Int(f, 1), x) == r
  {
    HalfIsNum(f, 43);
    HalfIntegers(OneExp(f));
    AddIsRounded(f, dir, Int(f, 1), Negate(x), r.mag);
    RoundOfNumber(f, dir, false, r.mag);
  }

  lemma OneMoreCall(f: Format, dir: Direction, c: Pending, c': Pending)
    requires IsDouble(f) && IsNum(f, c.x) && IsNum(f, c'.x) && Next(f, dir, c) == Some(c')
    ensures CallCount(f, dir, c) == 1 + CallCount(f, dir, c')
    ensures Next(f, dir, c') == None ==> CallCount(f, dir, c') == 1
  {
  }

  /** Four is reached: lgamma(-20.5) calls tgamma(-20.5), tgamma(21.5) and lgamma(21.5). */
  lemma FourCalls(f: Format, dir: Direction)
    requires IsDouble(f)
    ensures Shl(41, OneExp(f) - 1) >= 0 && IsNum(f, Fin(true, Shl(41, OneExp(f) - 1)))
    ensures CallCount(f, dir, Lgamma(Fin(true, Shl(41, OneExp(f) - 1)))) == 4
  {
    HalfIsNum(f, 41);
    HalfIsNum(f, 43);
    var x, r := Fin(true, Shl(41, OneExp(f) - 1)), Fin(false, Shl(43, OneExp(f) - 1));
    FourPending(f, dir, x, r);
    ReflectedHalf(f, dir, x, r);
    OneMoreCall(f, dir, Tgamma(r), Lgamma(r));
    OneMoreCall(f, dir, Tgamma(x), Tgamma(r));
    OneMoreCall(f, dir, Lgamma(x), Tgamma(x));
  }

  // ---- the factorials ----

  function Fact(n: nat): nat {
    if n == 0 then 1 else n * Fact(n - 1)
  }

  /** 1.0 * 2.0 * ... * j, each product rounded. */
  function Running(f: Format, dir: Direction, j: nat): Num {
    if j <= 1 then Int(f, 1) else Mul(f, dir, Running(f, dir, j - 1), Int(f, j))
  }

  /** j! rounded once. */
  function RoundedFact(f: Format, dir: Direction, j: nat): Num {
    ShlNat(Fact(j), OneExp(f));
    Round(f, dir, false, Shl(Fact(j), OneExp(f)), 0)
  }

  lemma Successor(f: Format, dir: Direction, i: nat)
    requires IsDouble(f) && i < 63
    ensures Add(f, dir, Int(f, i), Int(f, 1)) == Int(f, i + 1)
  {
    SmallInt(f, i + 1);
    ShlAdd(i, 1, OneExp(f));
    MaxMagIsNum(f);
    ShlNat(i + 1, OneExp(f));
    AddExact(f, dir, Int(f, i), Int(f, 1));
    IntOrder(f, 0, i + 1);
  }

  /** `for (double k = 2; k < x; ++k) m *= k;` */
  method MultiplyUp(f: Format, dir: Direction, x: Num, n: nat) returns (m: Num)
    requires IsDouble(f) && 1 <= n <= 25 && x == Int(f, n)
    ensures m == Running(f, dir, n - 1)
  {
    m := Int(f, 1);
    var k := Int(f, 2);
    ghost var i: nat := 2;
    IntOrder(f, i, n);
    while Less(f, k, x)
      invariant 2 <= i && (i <= n || (n == 1 && i == 2))
      invariant k == Int(f, i) && m == Running(f, dir, i - 1)
      invariant Less(f, k, x) <==> i < n
      decreases n - i
    {
      m := Mul(f, dir, m, k);
      k := Add(f, dir, k, Int(f, 1));
      Successor(f, dir, i);
      i := i + 1;
      IntOrder(f, i, n);
    }
  }

  lemma Rearrange(a: int, b: int, p: int)
    ensures (a * p) * (b * p) == ((a * b) * p) * p
  {
  }

  lemma ShlProduct(a: nat, b: nat, k: nat)
    ensures Shl(a, k) * Shl(b, k) == Shl(Shl(a * b, k), k)
  {
    ShlIsMul(a, k);
    ShlIsMul(b, k);
    ShlIsMul(a * b, k);
    ShlIsMul(Shl(a * b, k), k);
    Rearrange(a, b, Pow2(k));
  }

  lemma MulMagnitudes(f: Format, dir: Direction, x: nat, y: nat, z: nat)
    requires x * y == Shl(z, OneExp(f))
    ensures Mul(f, dir, Fin(false, x), Fin(false, y)) == Round(f, dir, false, z, 0)
  {
    RoundScale(Prec(f), ModeFor(dir, false), z, 0, OneExp(f), x * y);
  }

  /** A product of integers is computed as if in integers, and rounded once. */
  lemma IntegerProduct(f: Format, dir: Direction, a: nat, b: nat, c: nat)
    requires c == a * b
    ensures Shl(c, OneExp(f)) >= 0
    ensures Mul(f, dir, Int(f, a), Int(f, b)) == Round(f, dir, false, Shl(c, OneExp(f)), 0)
  {
    ShlNat(c, OneExp(f));
    ShlProduct(a, b, OneExp(f));
    MulMagnitudes(f, dir, Int(f, a).mag, Int(f, b).mag, Shl(c, OneExp(f)));
  }

  lemma MulGrows(a: nat, b: nat)
    requires a >= 1 && b >= 1
    ensures a * b >= b
  {
  }

  lemma {:induction false} FactMono(i: nat, j: nat)
    requires i <= j
    ensures 1 <= Fact(i) <= Fact(j)
    decreases j
  {
    if i < j {
      FactMono(i, j - 1);
      MulGrows(j, Fact(j - 1));
    } else if j > 0 {
      FactMono(j - 1, j - 1);
      MulGrows(j, Fact(j - 1));
    }
  }

  lemma Factorials()
    ensures Fact(18) == 6402373705728000
    ensures Fact(19) == Shl(7602818775552000, 4)
    ensures Fact(20) == Shl(4751761734720000, 9)
    ensures Fact(21) == Shl(6236687276820000, 13)
    ensures Fact(22) == Shl(8575445005627500, 17) == 1124000727777607680000
    ensures Fact(23) == 25852016738884976640000 && Fact(24) == 620448401733239439360000
    ensures Pow2(53) == 9007199254740992
  {
    assert Fact(6) == 720;
    assert Fact(12) == 479001600;
    assert Fact(18) == 6402373705728000;
    assert Fact(21) == 51090942171709440000;
    ShlShl(8575445005627500, 9, 8);
    assert Shl(8575445005627500, 9) == 4390627842881280000;
    assert Pow2(10) == 1024;
    ShlShl(1, 10, 10);
    assert Shl(1024, 10) == 1048576;
    ShlShl(1, 20, 10);
    assert Shl(1048576, 10) == 1073741824;
    ShlShl(1, 30, 10);
    assert Shl(1073741824, 10) == 1099511627776;
    ShlShl(1, 40, 10);
    assert Shl(1099511627776, 10) == 1125899906842624;
    ShlShl(1, 50, 3);
    assert Shl(1125899906842624, 3) == 9007199254740992;
  }

  lemma SmallFactFits(j: nat)
    requires j <= 18
    ensures Representable(53, Fact(j))
  {
    Factorials();
    FactMono(j, 18);
  }

  lemma LargeFactFits(j: nat)
    requires 19 <= j <= 22
    ensures Representable(53, Fact(j))
  {
    Factorials();
    match j
    case 19 => RepresentableShl(53, 7602818775552000, 4);
    case 20 => RepresentableShl(53, 4751761734720000, 9);
    case 21 => RepresentableShl(53, 6236687276820000, 13);
    case _ => RepresentableShl(53, 8575445005627500, 17);
  }

  lemma FactFits(j: nat)
    requires j <= 22
    ensures Representable(53, Fact(j)) && Fact(j) < Pow2(81)
  {
    if j <= 18 {
      SmallFactFits(j);
    } else {
      LargeFactFits(j);
    }
    Factorials();
    FactMono(j, 22);
    ShlBelow(8575445005627500, 53, 17);
    Pow2Mono(70, 81);
  }

  lemma ExactFact(f: Format, dir: Direction, j: nat)
    requires IsDouble(f) && j <= 22
    ensures RoundedFact(f, dir, j) == Int(f, Fact(j))
  {
    FactFits(j);
    IntIsNum(f, Fact(j));
    MaxMagIsNum(f);
    RoundOfNumber(f, dir, false, Int(f, Fact(j)).mag);
  }

  lemma FactStep(j: nat)
    requires j > 0
    ensures Fact(j) == Fact(j - 1) * j
  {
  }

  /** As long as the product so far is exact, the next one is rounded once. */
  lemma RunningStep(f: Format, dir: Direction, j: nat)
    requires j > 1 && Running(f, dir, j - 1) == Int(f, Fact(j - 1))
    ensures Running(f, dir, j) == RoundedFact(f, dir, j)
  {
    FactStep(j);
    IntegerProduct(f, dir, Fact(j - 1), j, Fact(j));
  }

  /** Up to 22! every product is exact. */
  lemma {:induction false} RunningExact(f: Format, dir: Direction, j: nat)
    requires IsDouble(f) && j <= 22
    ensures Running(f, dir, j) == Int(f, Fact(j)) == RoundedFact(f, dir, j)
    decreases j
  {
    ExactFact(f, dir, j);
    if j > 1 {
      RunningExact(f, dir, j - 1);
      RunningStep(f, dir, j);
    }
  }

  lemma {:induction false} RoundIntScale(m: Mode, n: nat, t: nat, k: nat)
    ensures Shl(n, k) >= 0 && RoundInt(m, Shl(n, k), t + k) == RoundInt(m, n, t)
    decreases k
  {
    ShlNat(n, k);
    if k != 0 {
      RoundIntScale(m, n, t, k - 1);
      var y := Shl(n, k - 1);
      LowUnique(2 * y, t + k, Shr(y, t + k - 1), 2 * Low(y, t + k - 1));
    }
  }

  /** The size of an integer with significand q and t more digits r. */
  lemma IntegerSize(lo: nat, hi: nat, q: nat, r: nat, t: nat, n: nat)
    requires n == Shl(q, t) + r && r < Pow2(t) && Pow2(lo) <= q && q + 1 < Pow2(hi)
    ensures Pow2(lo + t) <= n < Pow2(hi + t)
  {
    ShlAdd(q, 1, t);
    ShlAbove(q, lo, t);
    ShlBelow(q + 1, hi, t);
  }

  lemma RoundUnits(p: nat, m: Mode, w: nat, t: nat)
    requires p >= 1 && Pow2(p - 1 + t) <= w < Pow2(p + t)
    ensures RoundMag(p, m, w, 0) == Shl(RoundInt(m, w, t), t)
  {
    RoundAt(p, m, w, 0, t);
  }

  lemma ShlSized(lo: nat, hi: nat, n: nat, k: nat) returns (w: nat)
    requires Pow2(lo) <= n < Pow2(hi)
    ensures w == Shl(n, k) && Pow2(lo + k) <= w < Pow2(hi + k)
  {
    ShlAbove(n, lo, k);
    ShlBelow(n, hi, k);
    w := Shl(n, k);
  }

  lemma RoundLongMag(p: nat, m: Mode, n: nat, t: nat, k: nat) returns (w: nat)
    requires p >= 1 && Pow2(p - 1 + t) <= n < Pow2(p + t)
    ensures w == Shl(n, k) && RoundMag(p, m, w, 0) == Shl(RoundInt(m, n, t), t + k)
  {
    w := ShlSized(p - 1 + t, p + t, n, k);
    RoundIntScale(m, n, t, k);
    RoundUnits(p, m, w, t + k);
  }

  lemma LongIntegerFits(f: Format, i: nat, t: nat)
    requires i < Pow2(Prec(f)) && t + OneExp(f) <= TopExp(f)
    ensures Shl(i, t) >= 0 && 0 <= Shl(i, t + OneExp(f)) == Shl(Shl(i, t), OneExp(f)) < Limit(f)
  {
    ShlNat(i, t);
    ShlNat(i, t + OneExp(f));
    ShlShl(i, t, OneExp(f));
    ShlBelow(i, Prec(f), t + OneExp(f));
    Pow2Mono(Prec(f) + (t + OneExp(f)), Prec(f) + TopExp(f));
  }

  lemma RoundLongInteger(f: Format, dir: Direction, n: nat, t: nat, i: nat)
    requires Pow2(Prec(f) - 1 + t) <= n < Pow2(Prec(f) + t) && t + OneExp(f) <= TopExp(f)
    requires i == RoundInt(ModeFor(dir, false), n, t) && i < Pow2(Prec(f))
    ensures Shl(n, OneExp(f)) >= 0 && Shl(i, t) >= 0
    ensures Round(f, dir, false, Shl(n, OneExp(f)), 0) == Int(f, Shl(i, t))
  {
    var w := RoundLongMag(Prec(f), ModeFor(dir, false), n, t, OneExp(f));
    LongIntegerFits(f, i, t);
  }

  /** An integer of 53 + t bits, rounded. */
  lemma RoundInteger(f: Format, dir: Direction, n: nat, q: nat, r: nat, t: nat) returns (i: nat)
    requires IsDouble(f) && n == Shl(q, t) + r && r < Pow2(t) && t <= 27
    requires 4503599627370496 <= q < 9007199254740991
    ensures Shl(n, OneExp(f)) >= 0 && Shl(i, t) >= 0
    ensures Round(f, dir, false, Shl(n, OneExp(f)), 0) == Int(f, Shl(i, t))
    ensures i == match ModeFor(dir, false)
      case Truncate => q
      case Away => if r == 0 then q else q + 1
      case Nearest => if 2 * r < Pow2(t) || (2 * r == Pow2(t) && q % 2 == 0) then q else q + 1
  {
    var m := ModeFor(dir, false);
    Factorials();
    LowUnique(n, t, q, r);
    i := RoundInt(m, n, t);
    assert Pow2(53) == 2 * Pow2(52);
    IntegerSize(Prec(f) - 1, Prec(f), q, r, t, n);
    RoundLongInteger(f, dir, n, t, i);
  }

  lemma IntInjective(f: Format, i: nat, j: nat)
    ensures Int(f, i) == Int(f, j) <==> i == j
  {
    ShlMono(i, j, OneExp(f));
    ShlMono(j, i, OneExp(f));
  }

  lemma Times9(x: int)
    ensures Shl(x, 9) == 512 * x
  {
    assert Shl(x, 1) == 2 * x;
    assert Shl(x, 3) == 4 * Shl(x, 1);
    assert Shl(x, 5) == 4 * Shl(x, 3);
    assert Shl(x, 7) == 4 * Shl(x, 5);
  }

  lemma Times22(x: nat)
    ensures Shl(x, 22) == 4194304 * x
  {
    Times9(x);
    ShlShl(x, 9, 9);
    Times9(Shl(x, 9));
    var y := Shl(x, 18);
    ShlShl(x, 18, 4);
    assert Shl(y, 1) == 2 * y;
    assert Shl(y, 3) == 4 * Shl(y, 1);
  }

  lemma Rounded23(f: Format, dir: Direction) returns (i: nat, n: nat)
    requires IsDouble(f)
    ensures Shl(i, 22) >= 0 && RoundedFact(f, dir, 23) == Int(f, Shl(i, 22)) && n == Shl(i, 22) * 24
    ensures n == if ModeFor(dir, false) == Truncate then 620448401733239376445440 else 620448401733239477108736
  {
    Factorials();
    Times22(1);
    Times22(6163601097794765);
    Times22(6163601097794766);
    i := RoundInteger(f, dir, Fact(23), 6163601097794765, 2621440, 22);
    n := Shl(i, 22) * 24;
  }

  lemma Times27(x: nat)
    ensures Shl(x, 27) == 134217728 * x
  {
    Times9(x);
    ShlShl(x, 9, 9);
    Times9(Shl(x, 9));
    ShlShl(x, 18, 9);
    Times9(Shl(x, 18));
  }

  lemma Rounded24(f: Format, dir: Direction, n: nat) returns (d: nat, e: nat)
    requires IsDouble(f)
    requires n == if ModeFor(dir, false) == Truncate then 620448401733239376445440 else 620448401733239477108736
    ensures Shl(n, OneExp(f)) >= 0 && Shl(d, 27) >= 0 && Shl(e, 27) >= 0
    ensures Round(f, dir, false, Shl(n, OneExp(f)), 0) == Int(f, Shl(d, 27))
    ensures RoundedFact(f, dir, 24) == Int(f, Shl(e, 27))
    ensures d == e <==> ModeFor(dir, false) != Truncate
  {
    Factorials();
    Times27(1);
    Times27(4622700823346073);
    Times27(4622700823346074);
    e := RoundInteger(f, dir, Fact(24), 4622700823346074, 29360128, 27);
    if ModeFor(dir, false) == Truncate {
      d := RoundInteger(f, dir, n, 4622700823346073, 100663296, 27);
    } else {
      d := RoundInteger(f, dir, n, 4622700823346074, 67108864, 27);
    }
  }

  /** 24!, which is two roundings away from the exact 22!, as the code and as one rounding get it. */
  lemma Factorial24(f: Format, dir: Direction)
    requires IsDouble(f)
    ensures Running(f, dir, 24) == RoundedFact(f, dir, 24) <==> ModeFor(dir, false) != Truncate
  {
    Factorials();
    RunningExact(f, dir, 22);
    IntegerProduct(f, dir, Fact(22), 23, Fact(23));
    var i, n := Rounded23(f, dir);
    IntegerProduct(f, dir, Shl(i, 22), 24, n);
    var d, e := Rounded24(f, dir, n);
    ShlMono(d, e, 27);
    ShlMono(e, d, 27);
    IntInjective(f, Shl(d, 27), Shl(e, 27));
  }

  lemma Running23(f: Format, dir: Direction)
    requires IsDouble(f)
    ensures Running(f, dir, 23) == RoundedFact(f, dir, 23)
  {
    RunningExact(f, dir, 22);
    RunningStep(f, dir, 23);
  }

  /** What tgamma returns for the integers it multiplies up, x = 1, ..., 25: (x - 1)! rounded
      once, in every direction, except that the last one is wrong when rounding is downward or
      toward zero. Up to x = 23 the result is exact. */
  lemma FactorialsCorrect(f: Format, dir: Direction, x: nat)
    requires IsDouble(f) && 1 <= x <= 25
    ensures Running(f, dir, x - 1) == RoundedFact(f, dir, x - 1) <==> x < 25 || dir == ToNearest || dir == Upward
    ensures x <= 23 ==> Running(f, dir, x - 1) == Int(f, Fact(x - 1))
  {
    if x <= 23 {
      RunningExact(f, dir, x - 1);
    } else if x == 24 {
      Running23(f, dir);
    } else {
      Factorial24(f, dir);
    }
  }

  // ---- the functions themselves ----

  /** The functions of the C library, and the sums and quotients that are not modelled: the Lanczos
      approximation, and `m / x` at the end of Stirling's series. */
  datatype Libm = Libm(exp: Num -> Num, log: Num -> Num, sin: Num -> Num, divide: (Num, Num) -> Num,
                       lanczos: Num -> Num, series: Num -> Num, pi: Num, halfLogTwoPi: Num)

  /** `(x - 0.5)*log(x) - x + 0.918938533204672742 + m / x` */
  function Stirling(f: Format, lib: Libm, dir: Direction, x: Num): Num {
    var main := Sub(f, dir, Mul(f, dir, Sub(f, dir, x, Half(f)), lib.log(x)), x);
    Add(f, dir, Add(f, dir, main, lib.halfLogTwoPi), lib.series(x))
  }

  /** x - 1 for a positive integral x. */
  function Predecessor(f: Format, x: Num): nat {
    if x.Fin? && Shr(x.mag, OneExp(f)) > 0 then Shr(x.mag, OneExp(f)) - 1 else 0
  }

  /** `x < 0.0 ? -x : x` */
  function AbsOf(f: Format, x: Num): Num {
    if Less(f, x, Int(f, 0)) then Negate(x) else x
  }

  function TgammaOf(f: Format, lib: Libm, dir: Direction, x: Num): Num
    requires IsDouble(f) && IsNum(f, x)
    decreases CallRank(f, Tgamma(x))
  {
    RankDecreases(f, dir, Tgamma(x));
    if IsIntegral(f, x) && x == Fin(x.neg, 0) then Inf(false)
    else if IsIntegral(f, x) && Less(f, x, Int(f, 0)) then NaN
    else if IsIntegral(f, x) && Less(f, x, Int(f, 26)) then
      Running(f, dir, Predecessor(f, x))
    else if Less(f, x, Half(f)) then
      lib.divide(lib.pi, Mul(f, dir, lib.sin(Mul(f, dir, lib.pi, x)), TgammaOf(f, lib, dir, Sub(f, dir, Int(f, 1), x))))
    else if Less(f, Int(f, 12), x) then lib.exp(LgammaOf(f, lib, dir, x))
    else lib.lanczos(x)
  }

  function LgammaOf(f: Format, lib: Libm, dir: Direction, x: Num): Num
    requires IsDouble(f) && IsNum(f, x)
    decreases CallRank(f, Lgamma(x))
  {
    RankDecreases(f, dir, Lgamma(x));
    if Less(f, x, Int(f, 12)) then
      if !Less(f, Int(f, 0), x) && IsIntegral(f, x) then Inf(false)
      else lib.log(AbsOf(f, TgammaOf(f, lib, dir, x)))
    else Stirling(f, lib, dir, x)
  }

  lemma IntegralInt(f: Format, neg: bool, n: nat)
    ensures IsIntegral(f, Fin(neg, Int(f, n).mag)) && Shr(Int(f, n).mag, OneExp(f)) == n
    ensures n == 0 <==> Int(f, n).mag == 0
  {
    ShlNat(n, OneExp(f));
    LowUnique(Shl(n, OneExp(f)), OneExp(f), n, 0);
    IntOrder(f, 0, n);
  }

  lemma AtZeroOrBelow(f: Format, lib: Libm, dir: Direction, neg: bool, n: nat)
    requires IsDouble(f) && IsNum(f, Fin(neg, Int(f, n).mag)) && (n == 0 || neg)
    ensures TgammaOf(f, lib, dir, Fin(neg, Int(f, n).mag)) == if n == 0 then Inf(false) else NaN
    ensures LgammaOf(f, lib, dir, Fin(neg, Int(f, n).mag)) == Inf(false)
  {
    IntegralInt(f, neg, n);
    IntOrder(f, 0, 12);
  }

  lemma AtPositive(f: Format, lib: Libm, dir: Direction, n: nat)
    requires IsDouble(f) && IsNum(f, Int(f, n)) && 1 <= n <= 25
    ensures TgammaOf(f, lib, dir, Int(f, n)) == Running(f, dir, n - 1)
  {
    IntegralInt(f, false, n);
    IntOrder(f, 0, n);
    IntOrder(f, n, 26);
  }

  /** The values that need no approximation, whatever the library functions return. */
  lemma ExactValues(f: Format, lib: Libm, dir: Direction, neg: bool, n: nat)
    requires IsDouble(f) && IsNum(f, Fin(neg, Int(f, n).mag))
    ensures var x := Fin(neg, Int(f, n).mag);
      && (n == 0 ==> TgammaOf(f, lib, dir, x) == Inf(false))
      && (n == 0 ==> (TgammaOf(f, lib, dir, x) == Inf(neg) <==> !neg))
      && (n > 0 && neg ==> TgammaOf(f, lib, dir, x) == NaN)
      && (n == 0 || neg ==> LgammaOf(f, lib, dir, x) == Inf(false))
      && (1 <= n <= 23 && !neg ==> TgammaOf(f, lib, dir, x) == Int(f, Fact(n - 1)))
      && (1 <= n <= 25 && !neg ==>
            (TgammaOf(f, lib, dir, x) == RoundedFact(f, dir, n - 1) <==> n < 25 || dir == ToNearest || dir == Upward))
  {
    if n == 0 || neg {
      AtZeroOrBelow(f, lib, dir, neg, n);
    } else if n <= 25 {
      AtPositive(f, lib, dir, n);
      FactorialsCorrect(f, dir, n);
    }
  }

  lemma InfinityIsLarge(f: Format, i: nat)
    requires IsDouble(f) && i < 64
    ensures Less(f, Int(f, i), Inf(false)) && !Less(f, Inf(false), Int(f, i)) && !Less(f, Inf(false), Half(f))
  {
    SmallInt(f, i);
    SmallInt(f, 1);
    IntOrder(f, 1, 1);
    MaxMagIsNum(f);
  }

  lemma FiniteOperands(f: Format, dir: Direction, a: Num, b: Num)
    requires a != NaN && b.Fin?
    ensures Add(f, dir, a, b) != NaN && Sub(f, dir, a, b) != NaN
    ensures a.Fin? ==> Mul(f, dir, a, b) != NaN
  {
  }

  /** Adding and multiplying finite numbers can overflow, but not give a NaN. */
  lemma StirlingOfFinite(f: Format, lib: Libm, dir: Direction, x: Num)
    requires x.Fin? && lib.log(x).Fin? && lib.halfLogTwoPi.Fin? && lib.series(x).Fin?
    requires Sub(f, dir, x, Half(f)).Fin?
    ensures Stirling(f, lib, dir, x) != NaN
  {
    var product := Mul(f, dir, Sub(f, dir, x, Half(f)), lib.log(x));
    FiniteOperands(f, dir, Sub(f, dir, x, Half(f)), lib.log(x));
    FiniteOperands(f, dir, product, x);
    FiniteOperands(f, dir, Sub(f, dir, product, x), lib.halfLogTwoPi);
    FiniteOperands(f, dir, Add(f, dir, Sub(f, dir, product, x), lib.halfLogTwoPi), lib.series(x));
  }

  /** x - 1/2 does not overflow when x is at least 12. */
  lemma LessHalf(f: Format, dir: Direction, x: Num)
    requires IsDouble(f) && IsNum(f, x) && x.Fin? && !Less(f, x, Int(f, 12))
    ensures Sub(f, dir, x, Half(f)).Fin?
  {
    IntOrder(f, 12, 12);
    SubIsRounded(f, dir, x, Half(f), x.mag - Half(f).mag);
    RoundMono(Prec(f), ModeFor(dir, false), x.mag - Half(f).mag, x.mag, 0);
    RoundOfNumber(f, dir, false, x.mag);
  }

  lemma StirlingOfInfinity(f: Format, lib: Libm, dir: Direction)
    requires lib.log(Inf(false)) == Inf(false)
    ensures Stirling(f, lib, dir, Inf(false)) == NaN
  {
  }

  /** The exact condition under which lgamma, from 12 up, returns NaN for a number: infinity minus
      infinity at +infinity, as long as log does its part and is finite elsewhere. tgamma(+infinity)
      is what exp makes of that NaN. */
  lemma StirlingLosesInfinity(f: Format, lib: Libm, dir: Direction, x: Num)
    requires IsDouble(f) && IsNum(f, x) && x != NaN && !Less(f, x, Int(f, 12))
    requires lib.log(Inf(false)) == Inf(false)
    requires x.Fin? ==> lib.log(x).Fin? && lib.halfLogTwoPi.Fin? && lib.series(x).Fin?
    ensures LgammaOf(f, lib, dir, x) == NaN <==> x == Inf(false)
    ensures x == Inf(false) ==> TgammaOf(f, lib, dir, x) == lib.exp(NaN)
  {
    InfinityIsLarge(f, 12);
    InfinityIsLarge(f, 26);
    if x.Fin? {
      LessHalf(f, dir, x);
      StirlingOfFinite(f, lib, dir, x);
    } else {
      StirlingOfInfinity(f, lib, dir);
      IntOrder(f, 0, 12);
    }
  }

  // ---- without recursion ----

  /** tgamma from 1/2 up. */
  function UpperTgamma(f: Format, lib: Libm, dir: Direction, x: Num): Num {
    if IsIntegral(f, x) && Less(f, x, Int(f, 26)) then Running(f, dir, Predecessor(f, x))
    else if Less(f, Int(f, 12), x) then lib.exp(Stirling(f, lib, dir, x))
    else lib.lanczos(x)
  }

  /** tgamma at a number that is not an integer, or at least 1/2. */
  function DirectTgamma(f: Format, lib: Libm, dir: Direction, x: Num): Num {
    if !Less(f, x, Half(f)) then UpperTgamma(f, lib, dir, x)
    else
      var y := UpperTgamma(f, lib, dir, Sub(f, dir, Int(f, 1), x));
      lib.divide(lib.pi, Mul(f, dir, lib.sin(Mul(f, dir, lib.pi, x)), y))
  }

  lemma UpperWithoutRecursion(f: Format, lib: Libm, dir: Direction, x: Num)
    requires IsDouble(f) && IsNum(f, x) && !Less(f, x, Half(f))
    ensures TgammaOf(f, lib, dir, x) == UpperTgamma(f, lib, dir, x)
  {
    IntOrder(f, 0, 12);
    Pow2Mono(0, OneExp(f) - 1);
  }

  /** The mutual recursion amounts to one reflection at most, and one use of Stirling's formula
      or of the Lanczos sum. */
  lemma TgammaWithoutRecursion(f: Format, lib: Libm, dir: Direction, x: Num)
    requires IsDouble(f) && IsNum(f, x) && !(IsIntegral(f, x) && Less(f, x, Half(f)))
    ensures TgammaOf(f, lib, dir, x) == DirectTgamma(f, lib, dir, x)
  {
    if Less(f, x, Half(f)) {
      RankDecreases(f, dir, Tgamma(x));
      ReflectionLeaves(f, dir, x);
      UpperWithoutRecursion(f, lib, dir, Sub(f, dir, Int(f, 1), x));
    } else {
      UpperWithoutRecursion(f, lib, dir, x);
    }
  }

  /** An integer above zero is not below 1/2. */
  lemma IntegralFromHalf(f: Format, x: Num)
    requires IsDouble(f) && IsIntegral(f, x) && Less(f, Int(f, 0), x)
    ensures !Less(f, x, Half(f))
  {
    if x.Fin? {
      IntOrder(f, Shr(x.mag, OneExp(f)), 0);
    } else {
      InfinityIsLarge(f, 0);
    }
  }

  /** The mutual recursion amounts to one reflection at most, and one use of Stirling's formula
      or of the Lanczos sum. */
  lemma WithoutRecursion(f: Format, lib: Libm, dir: Direction, x: Num)
    requires IsDouble(f) && IsNum(f, x)
    ensures !(IsIntegral(f, x) && Less(f, x, Half(f))) ==> TgammaOf(f, lib, dir, x) == DirectTgamma(f, lib, dir, x)
    ensures !Less(f, x, Int(f, 12)) ==> LgammaOf(f, lib, dir, x) == Stirling(f, lib, dir, x)
    ensures Less(f, x, Int(f, 12)) && !(IsIntegral(f, x) && !Less(f, Int(f, 0), x)) ==>
      LgammaOf(f, lib, dir, x) == lib.log(AbsOf(f, DirectTgamma(f, lib, dir, x)))
  {
    if IsIntegral(f, x) && Less(f, Int(f, 0), x) {
      IntegralFromHalf(f, x);
    }
    if !(IsIntegral(f, x) && Less(f, x, Half(f))) {
      TgammaWithoutRecursion(f, lib, dir, x);
    }
  }

  /** An integral number in (0, 26) is one of 1, ..., 25. */
  method IntegralSmall(f: Format, x: Num) returns (n: nat)
    requires IsIntegral(f, x) && Less(f, Int(f, 0), x) && Less(f, x, Int(f, 26)) && x.Fin?
    ensures 1 <= n <= 25 && x == Int(f, n) && n == Shr(x.mag, OneExp(f))
  {
    n := Shr(x.mag, OneExp(f));
    IntOrder(f, 0, n);
    IntOrder(f, n, 26);
  }

  /** tgamma of an integer below 26 is multiplied up. */
  method SmallFactorial(f: Format, dir: Direction, x: Num) returns (r: Num)
    requires IsDouble(f) && IsIntegral(f, x) && Less(f, Int(f, 0), x) && Less(f, x, Int(f, 26))
    ensures r == Running(f, dir, Predecessor(f, x))
  {
    SmallInt(f, 26);
    MaxMagIsNum(f);
    var n := IntegralSmall(f, x);
    r := MultiplyUp(f, dir, x, n);
  }

  /** tgamma; calls counts the calls made, this one included. */
  method ComputeTgamma(f: Format, lib: Libm, dir: Direction, x: Num) returns (r: Num, ghost calls: nat)
    requires IsDouble(f) && IsNum(f, x)
    ensures r == TgammaOf(f, lib, dir, x)
    ensures calls == CallCount(f, dir, Tgamma(x))
    decreases CallRank(f, Tgamma(x))
  {
    RankDecreases(f, dir, Tgamma(x));
    calls := 1;
    if IsIntegral(f, x) {
      if x == Fin(x.neg, 0) {
        return Inf(false), calls;
      }
      if Less(f, x, Int(f, 0)) {
        return NaN, calls;
      }
      if Less(f, x, Int(f, 26)) {
        IntOrder(f, 0, 26);
        r := SmallFactorial(f, dir, x);
        return r, calls;
      }
    }
    if Less(f, x, Half(f)) {
      r, calls := ComputeTgamma(f, lib, dir, Sub(f, dir, Int(f, 1), x));
      return lib.divide(lib.pi, Mul(f, dir, lib.sin(Mul(f, dir, lib.pi, x)), r)), calls + 1;
    }
    if Less(f, Int(f, 12), x) {
      r, calls := ComputeLgamma(f, lib, dir, x);
      return lib.exp(r), calls + 1;
    }
    return lib.lanczos(x), calls;
  }

  /** lgamma */
  method ComputeLgamma(f: Format, lib: Libm, dir: Direction, x: Num) returns (r: Num, ghost calls: nat)
    requires IsDouble(f) && IsNum(f, x)
    ensures r == LgammaOf(f, lib, dir, x)
    ensures calls == CallCount(f, dir, Lgamma(x))
    decreases CallRank(f, Lgamma(x))
  {
    RankDecreases(f, dir, Lgamma(x));
    calls := 1;
    if Less(f, x, Int(f, 12)) {
      if !Less(f, Int(f, 0), x) && IsIntegral(f, x) {
        return Inf(false), calls;
      }
      r, calls := ComputeTgamma(f, lib, dir, x);
      return lib.log(AbsOf(f, r)), calls + 1;
    }
    return Stirling(f, lib, dir, x), calls;
  }

  // ---- case by case ----

  /** The thresholds of the code, in units. */
  lemma Thresholds(f: Format, x: Num)
    requires IsDouble(f) && x.Fin?
    ensures Less(f, x, Half(f)) <==> 2 * Signed(x) < One(f)
    ensures Less(f, Int(f, 12), x) <==> 12 * One(f) < Signed(x)
    ensures Less(f, x, Int(f, 12)) <==> Signed(x) < 12 * One(f)
    ensures Less(f, x, Int(f, 26)) <==> Signed(x) < 26 * One(f)
    ensures Less(f, x, Int(f, 0)) <==> Signed(x) < 0
    ensures Less(f, Int(f, 0), x) <==> 0 < Signed(x)
  {
    ShlIsMul(12, OneExp(f));
    ShlIsMul(26, OneExp(f));
    ShlZero(OneExp(f));
    assert One(f) == 2 * Pow2(OneExp(f) - 1);
  }

  /** The integers are the multiples of one. */
  lemma IntegralMeans(f: Format, x: Num, i: nat)
    requires x.Fin?
    ensures x.mag == Shl(i, OneExp(f)) ==> IsIntegral(f, x)
    ensures IsIntegral(f, x) ==> x.mag == Shl(Shr(x.mag, OneExp(f)), OneExp(f))
  {
    if x.mag == Shl(i, OneExp(f)) {
      LowUnique(x.mag, OneExp(f), i, 0);
    }
  }

  /** Which formula tgamma uses for a number from 1/2 up, other than the small integers. */
  lemma TgammaFromHalf(f: Format, lib: Libm, dir: Direction, x: Num)
    requires IsDouble(f) && IsNum(f, x) && x.Fin?
    ensures One(f) <= 2 * Signed(x) && (!IsIntegral(f, x) || Signed(x) >= 26 * One(f)) ==>
      TgammaOf(f, lib, dir, x) ==
        if Signed(x) <= 12 * One(f) then lib.lanczos(x) else lib.exp(Stirling(f, lib, dir, x))
  {
    Thresholds(f, x);
  }

  lemma BelowHalf(f: Format, x: Num)
    requires x.Fin?
    ensures Less(f, x, Half(f)) <==> 2 * Signed(x) < One(f)
  {
    assert One(f) == 2 * Pow2(OneExp(f) - 1);
  }

  lemma Reflected(f: Format, dir: Direction, x: Num) returns (y: Num)
    requires IsDouble(f) && IsNum(f, x) && x.Fin? && 2 * Signed(x) < One(f)
    ensures y == Sub(f, dir, Int(f, 1), x) && IsNum(f, y)
    ensures Directions.IsIeee(f, dir, false, One(f) - Signed(x), 0, y)
    ensures y.Fin? ==> One(f) <= 2 * Signed(y)
  {
    BelowHalf(f, x);
    y := Sub(f, dir, Int(f, 1), x);
    Directions.AddIsIeee(f, dir, Int(f, 1), Negate(x), false, One(f) - Signed(x));
    ReflectionLeaves(f, dir, x);
    AddIsNum(f, dir, Int(f, 1), Negate(x));
    if y.Fin? {
      BelowHalf(f, y);
    }
  }

  /** Below 1/2, other than at integers, it reflects at 1/2: y is 1 - x, rounded, and from 1/2 up. */
  lemma TgammaReflects(f: Format, lib: Libm, dir: Direction, x: Num) returns (y: Num)
    requires IsDouble(f) && IsNum(f, x) && x.Fin? && 2 * Signed(x) < One(f) && !IsIntegral(f, x)
    ensures IsNum(f, y) && Directions.IsIeee(f, dir, false, One(f) - Signed(x), 0, y)
    ensures y.Fin? ==> One(f) <= 2 * Signed(y)
    ensures TgammaOf(f, lib, dir, x)
         == lib.divide(lib.pi, Mul(f, dir, lib.sin(Mul(f, dir, lib.pi, x)), TgammaOf(f, lib, dir, y)))
  {
    Thresholds(f, x);
    y := Reflected(f, dir, x);
  }

  /** Infinities and NaNs. */
  lemma GammaOfSpecials(f: Format, lib: Libm, dir: Direction)
    requires IsDouble(f)
    ensures TgammaOf(f, lib, dir, NaN) == lib.lanczos(NaN) && LgammaOf(f, lib, dir, NaN) == Stirling(f, lib, dir, NaN)
    ensures TgammaOf(f, lib, dir, Inf(true)) == NaN && LgammaOf(f, lib, dir, Inf(true)) == Inf(false)
    ensures TgammaOf(f, lib, dir, Inf(false)) == lib.exp(Stirling(f, lib, dir, Inf(false)))
    ensures LgammaOf(f, lib, dir, Inf(false)) == Stirling(f, lib, dir, Inf(false))
  {
    InfinityIsLarge(f, 12);
    InfinityIsLarge(f, 26);
    InfinityIsLarge(f, 0);
    IntOrder(f, 0, 0);
  }

  /** lgamma from 12 up. */
  lemma LgammaFromTwelve(f: Format, lib: Libm, dir: Direction, x: Num)
    requires IsDouble(f) && IsNum(f, x) && x.Fin? && 12 * One(f) <= Signed(x)
    ensures LgammaOf(f, lib, dir, x) == Stirling(f, lib, dir, x)
  {
    Thresholds(f, x);
  }

  /** Below 12 and not at a pole, lgamma is log of a, which is tgamma(x) without its sign. */
  lemma LgammaIsLogOfMagnitude(f: Format, lib: Libm, dir: Direction, x: Num) returns (y: Num, a: Num)
    requires IsDouble(f) && IsNum(f, x) && x.Fin? && Signed(x) < 12 * One(f)
    requires IsIntegral(f, x) ==> Signed(x) > 0
    ensures y == TgammaOf(f, lib, dir, x) && LgammaOf(f, lib, dir, x) == lib.log(a)
    ensures a == if Less(f, y, Fin(false, 0)) then Negate(y) else y
    ensures !Less(f, a, Fin(false, 0))
    ensures y.Fin? ==> a.Fin? && a.mag == y.mag && Signed(a) == Abs(Signed(y))
    ensures y.Inf? ==> a == Inf(false)
    ensures y == NaN ==> a == NaN
  {
    Thresholds(f, x);
    IntOrder(f, 0, 0);
    y := TgammaOf(f, lib, dir, x);
    a := AbsOf(f, y);
  }

  predicate Fits(f: Format, s: int) {
    Representable(Prec(f), Abs(s)) && Abs(s) < Limit(f)
  }

  lemma SignOfProduct(a: Num, b: Num)
    requires a.Fin? && b.Fin?
    ensures Signed(a) * Signed(b) == if a.neg != b.neg then 0 - a.mag * b.mag else a.mag * b.mag
  {
  }

  lemma MulMagnitudesSigned(f: Format, dir: Direction, neg: bool, x: nat, y: nat, z: nat)
    requires x * y == Shl(z, OneExp(f)) && Representable(Prec(f), z) && z < Limit(f)
    ensures Round(f, dir, neg, x * y, OneExp(f)) == Fin(neg, z)
  {
    RoundExact(Prec(f), ModeFor(dir, neg), z, OneExp(f));
  }

  lemma MulExact(f: Format, dir: Direction, a: Num, b: Num, p: int)
    requires a.Fin? && b.Fin? && Fits(f, p) && Signed(a) * Signed(b) == Shl(p, OneExp(f))
    ensures Mul(f, dir, a, b).Fin? && Signed(Mul(f, dir, a, b)) == p
  {
    var k, neg := OneExp(f), a.neg != b.neg;
    Directions.ShlNegative(Abs(p), k);
    SignOfProduct(a, b);
    ShlZero(k);
    ShlMono(p, 0, k);
    ShlMono(0, p, k);
    MulMagnitudesSigned(f, dir, neg, a.mag, b.mag, Abs(p));
  }

  lemma SumsExact(f: Format, dir: Direction, q: Num, x: Num, c: Num, e: Num, p: int) returns (r: Num)
    requires q.Fin? && x.Fin? && c.Fin? && e.Fin? && Signed(q) == p
    requires Fits(f, p - Signed(x)) && Fits(f, p - Signed(x) + Signed(c))
    requires Fits(f, p - Signed(x) + Signed(c) + Signed(e))
    ensures r == Add(f, dir, Add(f, dir, Sub(f, dir, q, x), c), e)
    ensures r.Fin? && Signed(r) == p - Signed(x) + Signed(c) + Signed(e)
  {
    var s := Sub(f, dir, q, x);
    AddExact(f, dir, q, Negate(x));
    var t := Add(f, dir, s, c);
    AddExact(f, dir, s, c);
    r := Add(f, dir, t, e);
    AddExact(f, dir, t, e);
  }

  /** Where nothing is rounded, Stirling's last line is (x - 1/2) * log(x) - x + c + m / x. */
  lemma StirlingIsExact(f: Format, lib: Libm, dir: Direction, x: Num, p: int)
    requires x.Fin? && lib.log(x).Fin? && lib.halfLogTwoPi.Fin? && lib.series(x).Fin?
    requires Fits(f, Signed(x) - Half(f).mag) && Fits(f, p) && Fits(f, p - Signed(x))
    requires Fits(f, p - Signed(x) + Signed(lib.halfLogTwoPi))
    requires Fits(f, p - Signed(x) + Signed(lib.halfLogTwoPi) + Signed(lib.series(x)))
    requires (Signed(x) - Half(f).mag) * Signed(lib.log(x)) == Shl(p, OneExp(f))
    ensures Stirling(f, lib, dir, x).Fin?
    ensures Signed(Stirling(f, lib, dir, x)) == p - Signed(x) + Signed(lib.halfLogTwoPi) + Signed(lib.series(x))
  {
    var d := Sub(f, dir, x, Half(f));
    AddExact(f, dir, x, Negate(Half(f)));
    MulExact(f, dir, d, lib.log(x), p);
    var r := SumsExact(f, dir, Mul(f, dir, d, lib.log(x)), x, lib.halfLogTwoPi, lib.series(x), p);
  }

  // ---- binary64 ----

  /** tgamma and lgamma of a double end within three and four calls. */
  lemma DoubleCalls(dir: Direction, x: Double)
    ensures IsDouble(B64)
    ensures CallCount(B64, dir, Tgamma(V(x))) <= 3 && CallCount(B64, dir, Lgamma(V(x))) <= 4
  {
    Binary64IsDouble();
  }

  /** tgamma multiplies up (n - 1)! as the standard rounds it, but for 25 and truncation. */
  lemma TgammaIsFactorial(f: Format, lib: Libm, dir: Direction, n: nat)
    requires IsDouble(f) && IsNum(f, Int(f, n)) && 1 <= n <= 25
    ensures Shl(Fact(n - 1), OneExp(f)) >= 0
    ensures n < 25 || dir == ToNearest || dir == Upward <==>
      Directions.IsIeee(f, dir, false, Shl(Fact(n - 1), OneExp(f)), 0, TgammaOf(f, lib, dir, Int(f, n)))
  {
    ExactValues(f, lib, dir, false, n);
    ShlNat(Fact(n - 1), OneExp(f));
    Directions.RoundIsIeee(f, dir, false, Shl(Fact(n - 1), OneExp(f)), 0, TgammaOf(f, lib, dir, Int(f, n)));
  }

  /** What tgamma and lgamma return for the double that is the integer n or -n. */
  lemma DoubleExactValues(lib: Libm, dir: Direction, x: Double, n: nat)
    requires V(x).Fin? && V(x).mag == Int(B64, n).mag
    ensures IsDouble(B64)
    ensures n == 0 ==> TgammaOf(B64, lib, dir, V(x)) == Inf(false)
    ensures n > 0 && V(x).neg ==> TgammaOf(B64, lib, dir, V(x)) == NaN
    ensures n == 0 || V(x).neg ==> LgammaOf(B64, lib, dir, V(x)) == Inf(false)
    ensures 1 <= n <= 23 && !V(x).neg ==> TgammaOf(B64, lib, dir, V(x)) == Int(B64, Fact(n - 1))
    ensures 1 <= n <= 25 && !V(x).neg ==>
      && Shl(Fact(n - 1), OneExp(B64)) >= 0
      && (n < 25 || dir == ToNearest || dir == Upward <==>
          Directions.IsIeee(B64, dir, false, Shl(Fact(n - 1), OneExp(B64)), 0, TgammaOf(B64, lib, dir, V(x))))
  {
    Binary64IsDouble();
    ExactValues(B64, lib, dir, V(x).neg, n);
    if 1 <= n <= 25 && !V(x).neg {
      TgammaIsFactorial(B64, lib, dir, n);
    }
  }
}
