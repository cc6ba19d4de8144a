/** The four rounding directions of IEEE 754-2008 section 4.3, stated on signed numbers and with
    overflow, and the proof that Round is the one function that meets them. */
module Directions {
  import opened Binary
  import opened Ieee754
  import opened Arithmetic

  /** A finite number of the format. */
  ghost predicate IsFinite(f: Format, w: Num) {
    w.Fin? && IsNum(f, w)
  }

  /** The greatest number of the format not above s / 2^k. */
  ghost predicate IsFloor(f: Format, s: int, k: nat, r: Num) {
    && IsFinite(f, r) && Shl(Signed(r), k) <= s
    && forall w | IsFinite(f, w) && Shl(Signed(w), k) <= s :: Signed(w) <= Signed(r)
  }

  /** The least number of the format not below s / 2^k. */
  ghost predicate IsCeiling(f: Format, s: int, k: nat, r: Num) {
    && IsFinite(f, r) && s <= Shl(Signed(r), k)
    && forall w | IsFinite(f, w) && s <= Shl(Signed(w), k) :: Signed(r) <= Signed(w)
  }

  /** The number of greatest magnitude not above n / 2^k. */
  ghost predicate IsTruncated(f: Format, n: nat, k: nat, r: Num) {
    && IsFinite(f, r) && Shl(r.mag, k) <= n
    && forall w | IsFinite(f, w) && Shl(w.mag, k) <= n :: w.mag <= r.mag
  }

  /** r is nearer to s / 2^k than w is, or as near and has the even significand. */
  ghost predicate IsNearer(f: Format, s: int, k: nat, r: Num, w: Num)
    requires r.Fin? && w.Fin?
  {
    || Distance(Shl(Signed(r), k), s) < Distance(Shl(Signed(w), k), s)
    || (Distance(Shl(Signed(r), k), s) == Distance(Shl(Signed(w), k), s)
        && Significand(Prec(f), r.mag) % 2 == 0 && Significand(Prec(f), w.mag) % 2 == 1)
  }

  ghost predicate IsNearest(f: Format, s: int, k: nat, r: Num) {
    && IsFinite(f, r)
    && forall w | IsFinite(f, w) && Signed(w) != Signed(r) :: IsNearer(f, s, k, r, w)
  }

  /** n / 2^k is at least 2^emax * (2 - 2^-p), from where rounding to nearest gives an infinity. */
  predicate TooLarge(f: Format, n: nat, k: nat) {
    Shl(Pow2(Prec(f) + 1) - 1, TopExp(f) + k) <= 2 * n
  }

  /** r is what IEEE 754 makes of the exact result (-1)^neg * n / 2^k. */
  ghost predicate IsIeee(f: Format, dir: Direction, neg: bool, n: nat, k: nat, r: Num) {
    var s: int := if neg then 0 - n else n;
    && r != NaN && r.neg == neg
    && match dir
       case Downward =>
         if r.Inf? then neg && forall w | IsFinite(f, w) :: s < Shl(Signed(w), k) else IsFloor(f, s, k, r)
       case Upward =>
         if r.Inf? then !neg && forall w | IsFinite(f, w) :: Shl(Signed(w), k) < s else IsCeiling(f, s, k, r)
       case TowardZero => IsTruncated(f, n, k, r)
       case ToNearest => if TooLarge(f, n, k) then r.Inf? else IsNearest(f, s, k, r)
  }

  lemma ShlNegative(x: nat, k: nat)
    ensures Shl(0 - x, k) == 0 - Shl(x, k) && Shl(x, k) >= 0
  {
    ShlNat(x, k);
    ShlZero(k);
    ShlAdd(0, x, k);
  }

  lemma SignedScaled(w: Num, k: nat)
    requires w.Fin?
    ensures Shl(w.mag, k) >= 0
    ensures Shl(Signed(w), k) == if w.neg then 0 - Shl(w.mag, k) else Shl(w.mag, k)
    ensures w.mag > 0 ==> Shl(w.mag, k) > 0
    ensures w.mag == 0 ==> Shl(w.mag, k) == 0
  {
    ShlNegative(w.mag, k);
    ShlZero(k);
    ShlMono(0, w.mag, k);
  }

  /** Below 2^p * 2^t the numbers of p bits end at (2^p - 1) * 2^t. */
  lemma LastBefore(p: nat, t: nat, x: nat)
    requires p >= 1 && Representable(p, x) && x < Pow2(p + t)
    ensures x <= Pow2(p + t) - Pow2(t)
  {
    var c, j := RepresentableForm(p, x);
    ShlShl(1, p, t);
    ShlAdd(Pow2(p), 1, t);
    if j >= t {
      ShlShl(c, j - t, t);
      ShlMono(Pow2(p), Shl(c, j - t), t);
      ShlMono(Shl(c, j - t), Pow2(p) - 1, t);
    } else {
      ShlMono(c, Pow2(p) - 1, j);
      ShlGrows(Pow2(p) - 1, j, t);
    }
  }

  /** The greatest finite magnitude is MaxMag. */
  lemma MaxMagIsGreatest(f: Format, x: nat)
    ensures IsFinite(f, Fin(true, MaxMag(f))) && IsFinite(f, Fin(false, MaxMag(f)))
    ensures IsFinite(f, Fin(true, x)) || IsFinite(f, Fin(false, x)) ==> x <= MaxMag(f)
  {
    MaxMagIsNum(f);
    if Representable(Prec(f), x) && x < Limit(f) {
      LastBefore(Prec(f), TopExp(f), x);
    }
  }

  // ---- magnitudes ----

  lemma Truncated(f: Format, n: nat, k: nat, x: nat)
    requires Representable(Prec(f), x)
    ensures Representable(Prec(f), RoundMag(Prec(f), Truncate, n, k))
    ensures Shl(RoundMag(Prec(f), Truncate, n, k), k) <= n
    ensures Shl(x, k) <= n ==> x <= RoundMag(Prec(f), Truncate, n, k)
  {
    RoundMagStep(Prec(f), Truncate, n, k, x);
  }

  lemma RoundedAway(f: Format, n: nat, k: nat, x: nat)
    requires Representable(Prec(f), x)
    ensures Representable(Prec(f), RoundMag(Prec(f), Away, n, k))
    ensures n <= Shl(RoundMag(Prec(f), Away, n, k), k)
    ensures n <= Shl(x, k) ==> RoundMag(Prec(f), Away, n, k) <= x
  {
    RoundMagStep(Prec(f), Away, n, k, x);
  }

  /** Truncation, with overflow to the greatest number. */
  lemma TruncatedFits(f: Format, n: nat, k: nat, x: nat) returns (q: nat)
    requires Representable(Prec(f), x) && x < Limit(f)
    ensures q == if RoundMag(Prec(f), Truncate, n, k) < Limit(f) then RoundMag(Prec(f), Truncate, n, k) else MaxMag(f)
    ensures Representable(Prec(f), q) && q < Limit(f) && Shl(q, k) <= n
    ensures Shl(x, k) <= n ==> x <= q
  {
    Truncated(f, n, k, x);
    q := RoundMag(Prec(f), Truncate, n, k);
    if q >= Limit(f) {
      MaxMagIsGreatest(f, x);
      ShlMono(MaxMag(f), q, k);
      q := MaxMag(f);
    }
  }

  // ---- the directed roundings ----

  lemma ZeroFits(f: Format)
    ensures Representable(Prec(f), 0) && 0 < Limit(f)
  {
  }

  lemma TowardZeroIsIeee(f: Format, neg: bool, n: nat, k: nat)
    ensures IsIeee(f, TowardZero, neg, n, k, Round(f, TowardZero, neg, n, k))
  {
    PowRepresentable(Prec(f), 0);
    ZeroFits(f);
    var q := TruncatedFits(f, n, k, 0);
    forall w | IsFinite(f, w) && Shl(w.mag, k) <= n
      ensures w.mag <= q
    {
      var q' := TruncatedFits(f, n, k, w.mag);
    }
  }

  /** Toward the sign of the number: away from zero, or to an infinity. */
  lemma OutwardDown(f: Format, n: nat, k: nat)
    ensures IsIeee(f, Downward, true, n, k, Round(f, Downward, true, n, k))
  {
    var q, r := RoundMag(Prec(f), Away, n, k), Round(f, Downward, true, n, k);
    ZeroFits(f);
    RoundedAway(f, n, k, 0);
    SignedScaled(Fin(true, q), k);
    forall w | IsFinite(f, w)
      ensures q < Limit(f) && Shl(Signed(w), k) <= 0 - n ==> Signed(w) <= 0 - q
      ensures q >= Limit(f) ==> 0 - n < Shl(Signed(w), k)
    {
      SignedScaled(w, k);
      RoundedAway(f, n, k, w.mag);
    }
  }

  lemma OutwardUp(f: Format, n: nat, k: nat)
    ensures IsIeee(f, Upward, false, n, k, Round(f, Upward, false, n, k))
  {
    var q, r := RoundMag(Prec(f), Away, n, k), Round(f, Upward, false, n, k);
    ZeroFits(f);
    RoundedAway(f, n, k, 0);
    SignedScaled(Fin(false, q), k);
    forall w | IsFinite(f, w)
      ensures q < Limit(f) && n <= Shl(Signed(w), k) ==> q <= Signed(w)
      ensures q >= Limit(f) ==> Shl(Signed(w), k) < n
    {
      SignedScaled(w, k);
      RoundedAway(f, n, k, w.mag);
    }
  }

  /** Against the sign of the number: toward zero. */
  lemma InwardDown(f: Format, n: nat, k: nat)
    ensures IsIeee(f, Downward, false, n, k, Round(f, Downward, false, n, k))
  {
    ZeroFits(f);
    var q := TruncatedFits(f, n, k, 0);
    SignedScaled(Fin(false, q), k);
    forall w | IsFinite(f, w) && Shl(Signed(w), k) <= n
      ensures Signed(w) <= q
    {
      SignedScaled(w, k);
      var q' := TruncatedFits(f, n, k, w.mag);
    }
  }

  lemma InwardUp(f: Format, n: nat, k: nat)
    ensures IsIeee(f, Upward, true, n, k, Round(f, Upward, true, n, k))
  {
    ZeroFits(f);
    var q := TruncatedFits(f, n, k, 0);
    SignedScaled(Fin(true, q), k);
    forall w | IsFinite(f, w) && 0 - n <= Shl(Signed(w), k)
      ensures 0 - q <= Signed(w)
    {
      SignedScaled(w, k);
      var q' := TruncatedFits(f, n, k, w.mag);
    }
  }

  // ---- to nearest ----

  /** The threshold lies halfway between the greatest number and the next power of two. */
  lemma ThresholdIsHalfway(f: Format, k: nat)
    ensures Shl(Pow2(Prec(f) + 1) - 1, TopExp(f) + k) == Shl(MaxMag(f), k) + Shl(Limit(f), k)
  {
    var p, t := Prec(f), TopExp(f);
    MaxMagIsNum(f);
    ShlShl(1, p, t);
    ShlAdd(Pow2(p), 1, t);
    ShlAdd(Pow2(p) - 1, Pow2(p), t);
    ShlShl(Pow2(p + 1) - 1, t, k);
    ShlAdd(MaxMag(f), Limit(f), k);
  }

  lemma RoundedNearest(f: Format, n: nat, k: nat, x: nat) returns (q: nat)
    requires Representable(Prec(f), x)
    ensures q == RoundMag(Prec(f), Nearest, n, k) && Representable(Prec(f), q)
    ensures x != q ==>
      || Distance(Shl(q, k), n) < Distance(Shl(x, k), n)
      || (Distance(Shl(q, k), n) == Distance(Shl(x, k), n)
          && Significand(Prec(f), q) % 2 == 0 && Significand(Prec(f), x) % 2 == 1)
  {
    RoundMagStep(Prec(f), Nearest, n, k, x);
    q := RoundMag(Prec(f), Nearest, n, k);
  }

  lemma LimitIsEven(f: Format)
    ensures Representable(Prec(f), Limit(f)) && Significand(Prec(f), Limit(f)) % 2 == 0
  {
    PowRepresentable(Prec(f), Prec(f) + TopExp(f));
    EvenPower(Prec(f) - 1);
  }

  /** Rounding to nearest reaches the limit exactly from the threshold on. */
  lemma NearestOverflows(f: Format, n: nat, k: nat)
    ensures RoundMag(Prec(f), Nearest, n, k) >= Limit(f) <==> TooLarge(f, n, k)
  {
    ThresholdIsHalfway(f, k);
    LimitIsEven(f);
    MaxMagIsNum(f);
    ShlMono(MaxMag(f), Limit(f), k);
    var q := RoundedNearest(f, n, k, Limit(f));
    var q' := RoundedNearest(f, n, k, MaxMag(f));
    if q < Limit(f) {
      MaxMagIsGreatest(f, q);
      ShlMono(q, MaxMag(f), k);
    } else {
      ShlMono(Limit(f), q, k);
    }
  }

  lemma SignedDistance(v: Num, neg: bool, n: nat, k: nat)
    requires v.Fin?
    ensures Shl(v.mag, k) >= 0
    ensures Distance(Shl(Signed(v), k), if neg then 0 - n else n)
         == if v.neg == neg || v.mag == 0 then Distance(Shl(v.mag, k), n) else Shl(v.mag, k) + n
  {
    SignedScaled(v, k);
  }

  lemma NearerThan(f: Format, neg: bool, n: nat, k: nat, q: nat, w: Num)
    requires q == RoundMag(Prec(f), Nearest, n, k) && IsFinite(f, w) && Signed(w) != Signed(Fin(neg, q))
    ensures IsNearer(f, if neg then 0 - n else n, k, Fin(neg, q), w)
  {
    SignedDistance(Fin(neg, q), neg, n, k);
    SignedDistance(w, neg, n, k);
    if w.neg == neg || w.mag == 0 {
      var q' := RoundedNearest(f, n, k, w.mag);
    } else {
      SignedScaled(w, k);
      ZeroFits(f);
      ShlZero(k);
      var q' := RoundedNearest(f, n, k, 0);
    }
  }

  lemma ToNearestIsIeee(f: Format, neg: bool, n: nat, k: nat)
    ensures IsIeee(f, ToNearest, neg, n, k, Round(f, ToNearest, neg, n, k))
  {
    NearestOverflows(f, n, k);
    ZeroFits(f);
    var q := RoundedNearest(f, n, k, 0);
    if q < Limit(f) {
      forall w | IsFinite(f, w) && Signed(w) != Signed(Fin(neg, q))
        ensures IsNearer(f, if neg then 0 - n else n, k, Fin(neg, q), w)
      {
        NearerThan(f, neg, n, k, q, w);
      }
    }
  }

  // ---- the theorem ----

  lemma SameNumber(v: Num, w: Num)
    requires v.Fin? && w.Fin? && v.neg == w.neg && Signed(v) == Signed(w)
    ensures v == w
  {
  }

  lemma IeeeUnique(f: Format, dir: Direction, neg: bool, n: nat, k: nat, r: Num, r': Num)
    requires IsIeee(f, dir, neg, n, k, r) && IsIeee(f, dir, neg, n, k, r')
    ensures r == r'
  {
    if r.Fin? && r'.Fin? {
      assert IsFinite(f, r) && IsFinite(f, r');
      assert dir == TowardZero ==> r.mag == r'.mag;
      SameNumber(r, r');
    }
  }

  lemma RoundMeets(f: Format, dir: Direction, neg: bool, n: nat, k: nat)
    ensures IsIeee(f, dir, neg, n, k, Round(f, dir, neg, n, k))
  {
    match dir
    case ToNearest => ToNearestIsIeee(f, neg, n, k);
    case TowardZero => TowardZeroIsIeee(f, neg, n, k);
    case Upward => if neg { InwardUp(f, n, k); } else { OutwardUp(f, n, k); }
    case Downward => if neg { OutwardDown(f, n, k); } else { InwardDown(f, n, k); }
  }

  /** In each direction, for each sign, and with overflow, Round is what the standard asks for. */
  lemma RoundIsIeee(f: Format, dir: Direction, neg: bool, n: nat, k: nat, r: Num)
    ensures IsIeee(f, dir, neg, n, k, r) <==> r == Round(f, dir, neg, n, k)
  {
    RoundMeets(f, dir, neg, n, k);
    if IsIeee(f, dir, neg, n, k, r) {
      IeeeUnique(f, dir, neg, n, k, r, Round(f, dir, neg, n, k));
    }
  }

  // ---- the operations ----

  /** A sum is the exact sum, rounded. */
  lemma AddIsIeee(f: Format, dir: Direction, a: Num, b: Num, neg: bool, d: nat)
    requires a.Fin? && b.Fin? && d > 0 && Signed(a) + Signed(b) == if neg then 0 - d else d
    ensures IsIeee(f, dir, neg, d, 0, Add(f, dir, a, b))
  {
    AddNonzero(f, dir, a, b, Signed(a) + Signed(b));
    RoundMeets(f, dir, neg, d, 0);
  }

  /** Which zero a sum is that is exactly zero, section 6.3. */
  lemma AddToZero(f: Format, dir: Direction, a: Num, b: Num)
    requires a.Fin? && b.Fin? && Signed(a) + Signed(b) == 0
    ensures a.neg == b.neg ==> Add(f, dir, a, b) == a == b
    ensures a.neg != b.neg ==> Add(f, dir, a, b) == Fin(dir == Downward, 0)
  {
  }

  /** A product is the exact product, rounded; units multiply to units of 2^-OneExp units. */
  lemma MulIsIeee(f: Format, dir: Direction, a: Num, b: Num)
    requires a.Fin? && b.Fin?
    ensures IsIeee(f, dir, a.neg != b.neg, a.mag * b.mag, OneExp(f), Mul(f, dir, a, b))
  {
    RoundMeets(f, dir, a.neg != b.neg, a.mag * b.mag, OneExp(f));
  }

  /** A converted number is the number, in the other format's units, rounded. */
  lemma ConvertIsIeee(f: Format, g: Format, dir: Direction, v: Num)
    requires v.Fin?
    ensures Shl(v.mag, OneExp(g)) >= 0
    ensures IsIeee(g, dir, v.neg, Shl(v.mag, OneExp(g)), OneExp(f), Convert(f, g, dir, v))
  {
    ShlNat(v.mag, OneExp(g));
    RoundMeets(g, dir, v.neg, Shl(v.mag, OneExp(g)), OneExp(f));
  }

  /** Infinities and NaNs in sums, products and conversions, section 7.2. */
  lemma SpecialOperands(f: Format, g: Format, dir: Direction, a: Num, b: Num)
    ensures !a.Fin? ==> Convert(f, g, dir, a) == a
    ensures Add(f, dir, NaN, b) == Add(f, dir, a, NaN) == Mul(f, dir, NaN, b) == Mul(f, dir, a, NaN) == NaN
    ensures a.Inf? && b.Inf? ==>
      && Add(f, dir, a, b) == (if a.neg == b.neg then a else NaN)
      && Mul(f, dir, a, b) == Inf(a.neg != b.neg)
    ensures a.Inf? && b.Fin? ==>
      && Add(f, dir, a, b) == Add(f, dir, b, a) == a
      && Mul(f, dir, a, b) == Mul(f, dir, b, a) == if b.mag == 0 then NaN else Inf(a.neg != b.neg)
  {
  }

  /** `<` is the order of the numbers; an infinity is beyond all of them, and NaN compares with none. */
  lemma LessIsOrder(f: Format, a: Num, b: Num)
    requires IsNum(f, a) && IsNum(f, b)
    ensures a == NaN || b == NaN ==> !Less(f, a, b)
    ensures a.Fin? && b.Fin? ==> (Less(f, a, b) <==> Signed(a) < Signed(b))
    ensures a.Inf? && b != NaN ==> (Less(f, a, b) <==> a.neg && b != a)
    ensures b.Inf? && a != NaN ==> (Less(f, a, b) <==> !b.neg && a != b)
  {
    MaxMagIsNum(f);
  }
}
