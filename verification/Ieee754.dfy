/** IEEE 754 binary interchange formats: words, values, and rounding.

    A magnitude is a natural number of units, one unit being the least
    subnormal of the format (2^-1074 for binary64, 2^-149 for binary32).
    An exact intermediate result is n / 2^k units. */
module Ieee754 {
  import opened Binary

  /** A format with eb exponent bits and mb fraction bits. */
  datatype FormatRaw = Format(eb: nat, mb: nat)

  type Format = f: FormatRaw | f.eb >= 4 && f.mb >= 3 && f.mb < Pow2(f.eb - 1) - 1 witness Format(4, 3)

  /** The rounding-direction attributes of IEEE 754-2008 section 4.3. */
  datatype Direction = ToNearest | Upward | Downward | TowardZero

  /** What a direction means for a magnitude once the sign is known. */
  datatype Mode = Nearest | Truncate | Away

  function ModeFor(dir: Direction, neg: bool): Mode {
    match dir
    case ToNearest => Nearest
    case TowardZero => Truncate
    case Upward => if neg then Truncate else Away
    case Downward => if neg then Away else Truncate
  }

  // ---- rounding a magnitude ----

  /** n / 2^k rounded to an integer. */
  function RoundInt(m: Mode, n: nat, k: nat): nat {
    var q, r := Shr(n, k), Low(n, k);
    match m
    case Truncate => q
    case Away => if r == 0 then q else q + 1
    case Nearest => if 2 * r < Pow2(k) || (2 * r == Pow2(k) && q % 2 == 0) then q else q + 1
  }

  /** n / 2^k rounded to p significant bits, with no bound on the exponent:
      below 2^p units every integer has few enough bits; above, the result is
      twice the rounding of half the number. */
  function RoundMag(p: nat, m: Mode, n: nat, k: nat): nat
    decreases n - Pow2(p + k)
  {
    if n < Pow2(p + k) then RoundInt(m, n, k) else 2 * RoundMag(p, m, n, k + 1)
  }

  /** x has at most p significant bits. */
  predicate Representable(p: nat, x: nat)
    decreases x, p
  {
    x < Pow2(p) || (x % 2 == 0 && Representable(p, x / 2))
  }

  /** The p-bit integer significand of x. */
  function Significand(p: nat, x: nat): nat
    decreases x, p
  {
    if x < Pow2(p) then x else Significand(p, x / 2)
  }

  function Distance(a: int, b: int): nat {
    if a < b then b - a else a - b
  }

  /** As a rounding of n / 2^k, r is at least as good a choice as x. */
  ghost predicate Preferred(p: nat, m: Mode, n: nat, k: nat, r: nat, x: nat) {
    match m
    case Truncate => Shl(r, k) <= n && (Shl(x, k) <= n ==> x <= r)
    case Away => n <= Shl(r, k) && (n <= Shl(x, k) ==> r <= x)
    case Nearest => x != r ==>
        || Distance(Shl(r, k), n) < Distance(Shl(x, k), n)
        || (Distance(Shl(r, k), n) == Distance(Shl(x, k), n)
            && Significand(p, r) % 2 == 0 && Significand(p, x) % 2 == 1)
  }

  /** IEEE 754-2008 section 4.3: among the numbers with p significant bits, r is the one
      that n / 2^k rounds to: the greatest not above it, the least not below it, or the
      nearest, the one with the even significand if two are equally near. */
  ghost predicate IsRounding(p: nat, m: Mode, n: nat, k: nat, r: nat) {
    && Representable(p, r)
    && forall x: nat | Representable(p, x) :: Preferred(p, m, n, k, r, x)
  }

  lemma RoundIntBounds(m: Mode, n: nat, k: nat)
    ensures Shr(n, k) <= RoundInt(m, n, k) <= Shr(n, k) + 1
    ensures Shl(Shr(n, k), k) <= n < Shl(Shr(n, k) + 1, k) == Shl(Shr(n, k), k) + Pow2(k)
    ensures Low(n, k) == 0 ==> RoundInt(m, n, k) == Shr(n, k)
    ensures m == Away && Low(n, k) != 0 ==> RoundInt(m, n, k) == Shr(n, k) + 1
  {
    ShrBounds(n, k);
    ShlAdd(Shr(n, k), 1, k);
  }

  lemma {:induction false} PowRepresentable(p: nat, j: nat)
    requires p >= 1
    ensures Representable(p, Pow2(j))
    ensures j < p ==> Significand(p, Pow2(j)) == Pow2(j)
    ensures j >= p ==> Significand(p, Pow2(j)) == Pow2(p - 1)
    decreases j
  {
    if j < p {
      Pow2Mono(j, p);
    } else {
      Pow2Mono(p, j);
      PowRepresentable(p, j - 1);
      assert Pow2(j) % 2 == 0 && Pow2(j) / 2 == Pow2(j - 1);
    }
  }

  lemma QuotientBelow(p: nat, n: nat, k: nat)
    requires n < Pow2(p + k)
    ensures Shr(n, k) < Pow2(p)
  {
    ShrBounds(n, k);
    ShlShl(1, p, k);
    ShlMono(Shr(n, k), Pow2(p), k);
  }

  lemma EvenPower(p: nat)
    requires p >= 1
    ensures Pow2(p) % 2 == 0
  {
    assert Pow2(p) == 2 * Pow2(p - 1);
  }

  lemma SmallSignificand(p: nat, x: nat)
    requires p >= 2 && x <= Pow2(p)
    ensures Representable(p, x)
    ensures Significand(p, x) % 2 == x % 2
  {
    if x == Pow2(p) {
      PowRepresentable(p, p);
      EvenPower(p);
      EvenPower(p - 1);
    }
  }

  /** Where the multiples of 2^k lie around n. */
  lemma Neighbour(n: nat, k: nat, x: nat)
    ensures Shl(Shr(n, k), k) + Low(n, k) == n
    ensures x <= Shr(n, k) ==> Shl(x, k) <= Shl(Shr(n, k), k)
    ensures x > Shr(n, k) ==> Shl(x, k) >= Shl(Shr(n, k), k) + Pow2(k)
    ensures x < Shr(n, k) ==> Shl(x, k) < Shl(Shr(n, k), k)
    ensures x > Shr(n, k) + 1 ==> Shl(x, k) > Shl(Shr(n, k), k) + Pow2(k)
    ensures Shl(Shr(n, k) + 1, k) == Shl(Shr(n, k), k) + Pow2(k)
  {
    var q := Shr(n, k);
    ShlAdd(q, 1, k);
    ShlMono(x, q, k);
    ShlMono(q + 1, x, k);
  }

  lemma NearestPreferred(p: nat, n: nat, k: nat, x: nat)
    requires p >= 2 && Shr(n, k) < Pow2(p)
    ensures Preferred(p, Nearest, n, k, RoundInt(Nearest, n, k), x)
  {
    var q := Shr(n, k);
    Neighbour(n, k, x);
    SmallSignificand(p, q);
    SmallSignificand(p, q + 1);
  }

  lemma DirectedPreferred(p: nat, m: Mode, n: nat, k: nat, x: nat)
    requires m != Nearest
    ensures Preferred(p, m, n, k, RoundInt(m, n, k), x)
  {
    Neighbour(n, k, x);
  }

  lemma RoundMagBase(p: nat, m: Mode, n: nat, k: nat, x: nat)
    requires p >= 2 && Representable(p, x) && n < Pow2(p + k)
    ensures RoundInt(m, n, k) <= Pow2(p)
    ensures Representable(p, RoundInt(m, n, k))
    ensures Preferred(p, m, n, k, RoundInt(m, n, k), x)
  {
    QuotientBelow(p, n, k);
    SmallSignificand(p, RoundInt(m, n, k));
    if m == Nearest {
      NearestPreferred(p, n, k, x);
    } else {
      DirectedPreferred(p, m, n, k, x);
    }
  }

  lemma PreferredToSmall(p: nat, m: Mode, n: nat, k: nat, h: nat, x: nat)
    requires p >= 2 && x < Pow2(p) && n >= Pow2(p + k)
    requires Preferred(p, m, n, k + 1, h, Pow2(p - 1))
    ensures h >= Pow2(p - 1)
    ensures Preferred(p, m, n, k, 2 * h, x)
  {
    var c := Pow2(p - 1);
    assert c == 2 * Pow2(p - 2);
    ShlShl(1, p - 1, k + 1);
    ShlAdd(h, h, k);
    ShlAdd(c, c, k);
    ShlMono(h, c, k + 1);
    ShlMono(x, 2 * c, k);
  }

  lemma PreferredDoubles(p: nat, m: Mode, n: nat, k: nat, h: nat, x: nat)
    requires p >= 1 && 2 * x >= Pow2(p) && 2 * h >= Pow2(p)
    requires Preferred(p, m, n, k + 1, h, x)
    ensures Preferred(p, m, n, k, 2 * h, 2 * x)
  {
    ShlAdd(h, h, k);
    ShlAdd(x, x, k);
    assert (2 * h) / 2 == h && (2 * x) / 2 == x;
  }

  lemma {:induction false} RoundMagStep(p: nat, m: Mode, n: nat, k: nat, x: nat)
    requires p >= 2 && Representable(p, x)
    ensures Representable(p, RoundMag(p, m, n, k))
    ensures Preferred(p, m, n, k, RoundMag(p, m, n, k), x)
    decreases n - Pow2(p + k)
  {
    if n < Pow2(p + k) {
      RoundMagBase(p, m, n, k, x);
    } else {
      var h := RoundMag(p, m, n, k + 1);
      PowRepresentable(p, p - 1);
      RoundMagStep(p, m, n, k + 1, Pow2(p - 1));
      if x < Pow2(p) {
        PreferredToSmall(p, m, n, k, h, x);
      } else {
        PreferredToSmall(p, m, n, k, h, 0);
        RoundMagStep(p, m, n, k + 1, x / 2);
        PreferredDoubles(p, m, n, k, h, x / 2);
      }
      assert (2 * h) / 2 == h;
    }
  }

  /** The recursive rounding is the rounding that IEEE 754 defines, and the only one. */
  lemma RoundMagIsIeee(p: nat, m: Mode, n: nat, k: nat, r: nat)
    requires p >= 2
    ensures IsRounding(p, m, n, k, r) <==> r == RoundMag(p, m, n, k)
  {
    var r0 := RoundMag(p, m, n, k);
    PowRepresentable(p, p);
    RoundMagStep(p, m, n, k, Pow2(p));
    forall x: nat | Representable(p, x)
      ensures Preferred(p, m, n, k, r0, x)
    {
      RoundMagStep(p, m, n, k, x);
    }
  }

  // ---- consequences used throughout ----

  lemma RoundExact(p: nat, m: Mode, x: nat, k: nat)
    requires p >= 2 && Representable(p, x)
    ensures Shl(x, k) >= 0 && RoundMag(p, m, Shl(x, k), k) == x
  {
    ShlNat(x, k);
    RoundMagStep(p, m, Shl(x, k), k, x);
    ShlMono(RoundMag(p, m, Shl(x, k), k), x, k);
  }

  lemma RoundMono(p: nat, m: Mode, n: nat, n': nat, k: nat)
    requires p >= 2 && n <= n'
    ensures RoundMag(p, m, n, k) <= RoundMag(p, m, n', k)
  {
    var r, r' := RoundMag(p, m, n, k), RoundMag(p, m, n', k);
    PowRepresentable(p, p);
    RoundMagStep(p, m, n, k, Pow2(p));
    RoundMagStep(p, m, n', k, r);
    RoundMagStep(p, m, n, k, r');
    ShlMono(r', r, k);
  }

  lemma {:induction false} RoundScaleByTwo(p: nat, m: Mode, n: nat, k: nat)
    ensures RoundMag(p, m, 2 * n, k + 1) == RoundMag(p, m, n, k)
    decreases n - Pow2(p + k)
  {
    if n < Pow2(p + k) {
      LowUnique(2 * n, k + 1, Shr(n, k), 2 * Low(n, k));
    } else {
      RoundScaleByTwo(p, m, n, k + 1);
    }
  }

  /** Only the ratio n / 2^k matters. */
  lemma {:induction false} RoundScale(p: nat, m: Mode, n: nat, k: nat, j: nat, w: nat)
    requires w == Shl(n, j)
    ensures RoundMag(p, m, w, k + j) == RoundMag(p, m, n, k)
    decreases j
  {
    if j != 0 {
      ShlNat(n, j - 1);
      RoundScale(p, m, n, k, j - 1, Shl(n, j - 1));
      RoundScaleByTwo(p, m, Shl(n, j - 1), k + j - 1);
    }
  }

  /** Below half a unit nothing but the direction and being nonzero matters. */
  lemma RoundTiny(p: nat, m: Mode, n: nat, k: nat)
    requires 2 * n < Pow2(k)
    ensures RoundMag(p, m, n, k) == if m == Away && n > 0 then 1 else 0
  {
    ShlZero(k);
    LowUnique(n, k, 0, n);
    Pow2Mono(k, p + k);
  }

  lemma RoundZero(p: nat, m: Mode, k: nat)
    ensures RoundMag(p, m, 0, k) == 0
  {
    ShlZero(k);
    LowUnique(0, k, 0, 0);
  }

  /** Between 2^(p-1+t) and 2^(p+t) units, rounding is to multiples of 2^t units. */
  lemma {:induction false} RoundAt(p: nat, m: Mode, n: nat, k: nat, t: nat)
    requires p >= 1 && n < Pow2(p + t + k)
    requires t == 0 || Pow2(p - 1 + t + k) <= n
    ensures RoundMag(p, m, n, k) == Shl(RoundInt(m, n, k + t), t)
    decreases t
  {
    if t != 0 {
      Pow2Mono(p + k, p - 1 + t + k);
      assert k + 1 + (t - 1) == k + t;
      RoundAt(p, m, n, k + 1, t - 1);
    }
  }

  lemma {:induction false} RepresentableShl(p: nat, x: nat, j: nat)
    requires Representable(p, x)
    ensures Shl(x, j) >= 0 && Representable(p, Shl(x, j))
    decreases j
  {
    ShlNat(x, j);
    if j != 0 {
      ShlNat(x, j - 1);
      RepresentableShl(p, x, j - 1);
      assert Shl(x, j) / 2 == Shl(x, j - 1);
    }
  }

  /** x is a significand of at most p bits times a power of two, normalised if it can be. */
  lemma {:induction false} RepresentableForm(p: nat, x: nat) returns (c: nat, j: nat)
    requires p >= 1 && Representable(p, x)
    ensures x == Shl(c, j) && c < Pow2(p) && (j == 0 || c >= Pow2(p - 1))
    decreases x
  {
    if x < Pow2(p) {
      c, j := x, 0;
    } else {
      var i;
      c, i := RepresentableForm(p, x / 2);
      j := i + 1;
    }
  }

  // ---- values ----

  /** A floating-point datum; mag counts units. NaN payloads and signs are not distinguished. */
  datatype Num = NaN | Inf(neg: bool) | Fin(neg: bool, mag: nat)

  function Prec(f: Format): (p: nat)
    ensures p >= 4
  {
    f.mb + 1
  }

  /** The exponent field of infinities and NaNs. */
  function ExpAll(f: Format): (e: nat)
    ensures e >= 15
  {
    Pow2Mono(4, f.eb);
    assert Pow2(4) == 16;
    Pow2(f.eb) - 1
  }

  /** The greatest finite numbers are multiples of 2^TopExp units. */
  function TopExp(f: Format): nat {
    ExpAll(f) - 2
  }

  /** Finite magnitudes are below this. */
  function Limit(f: Format): nat {
    Pow2(Prec(f) + TopExp(f))
  }

  /** 1.0 is 2^OneExp units. */
  function OneExp(f: Format): (e: nat)
    ensures e < TopExp(f)
    ensures e >= Prec(f)
  {
    Pow2Mono(3, f.eb - 1);
    assert Pow2(3) == 8;
    Pow2(f.eb - 1) - 2 + f.mb
  }

  function One(f: Format): (u: nat)
    ensures u > 0
  {
    Pow2(OneExp(f))
  }

  predicate IsNum(f: Format, v: Num) {
    v.Fin? ==> Representable(Prec(f), v.mag) && v.mag < Limit(f)
  }

  function MaxMag(f: Format): nat {
    Pow2Mono(TopExp(f), Prec(f) + TopExp(f));
    Limit(f) - Pow2(TopExp(f))
  }

  /** IEEE 754-2008 section 7.4: what replaces a result too large for the format. */
  function Overflow(f: Format, dir: Direction, neg: bool): Num {
    if ModeFor(dir, neg) == Truncate then Fin(neg, MaxMag(f)) else Inf(neg)
  }

  /** The exact number (-1)^neg * n / 2^k units, rounded once. */
  function Round(f: Format, dir: Direction, neg: bool, n: nat, k: nat): Num {
    var r := RoundMag(Prec(f), ModeFor(dir, neg), n, k);
    if r < Limit(f) then Fin(neg, r) else Overflow(f, dir, neg)
  }

  lemma MaxMagIsNum(f: Format)
    ensures Representable(Prec(f), MaxMag(f)) && MaxMag(f) < Limit(f)
    ensures 2 * MaxMag(f) >= Limit(f)
  {
    var p, t := Prec(f), TopExp(f);
    ShlShl(1, p, t);
    ShlAdd(Pow2(p), 1, t);
    RepresentableShl(p, Pow2(p) - 1, t);
    Pow2Mono(t + 1, p + t);
  }

  lemma RoundIsNum(f: Format, dir: Direction, neg: bool, n: nat, k: nat)
    ensures IsNum(f, Round(f, dir, neg, n, k))
  {
    PowRepresentable(Prec(f), 0);
    RoundMagStep(Prec(f), ModeFor(dir, neg), n, k, Pow2(0));
    MaxMagIsNum(f);
  }

  lemma RoundOverflows(f: Format, dir: Direction, neg: bool, n: nat, k: nat)
    requires n >= Pow2(Prec(f) + TopExp(f) + k)
    ensures Round(f, dir, neg, n, k) == Overflow(f, dir, neg)
  {
    var p, t, m := Prec(f), TopExp(f), ModeFor(dir, neg);
    ShlShl(1, p + t, k);
    PowRepresentable(p, p + t);
    RoundExact(p, m, Limit(f), k);
    RoundMono(p, m, Pow2(p + t + k), n, k);
  }

  // ---- words ----

  predicate IsWord(f: Format, w: nat) {
    w < Pow2(1 + f.eb + f.mb)
  }

  function SignField(f: Format, w: nat): nat {
    Shr(w, f.eb + f.mb)
  }

  function ExpField(f: Format, w: nat): nat {
    Low(Shr(w, f.mb), f.eb)
  }

  function FracField(f: Format, w: nat): nat {
    Low(w, f.mb)
  }

  function Pack(f: Format, s: nat, e: nat, fr: nat): nat {
    ShlNat(s, f.eb + f.mb);
    ShlNat(e, f.mb);
    Shl(s, f.eb + f.mb) + Shl(e, f.mb) + fr
  }

  /** The magnitude that IEEE 754-2008 section 3.4 gives to an exponent and a fraction field. */
  function Decode(mb: nat, e: nat, fr: nat): nat {
    if e == 0 then fr else ShlNat(Pow2(mb) + fr, e - 1); Shl(Pow2(mb) + fr, e - 1)
  }

  function Value(f: Format, w: nat): Num {
    var s, e, fr := SignField(f, w), ExpField(f, w), FracField(f, w);
    if e == ExpAll(f) then if fr == 0 then Inf(s == 1) else NaN
    else Fin(s == 1, Decode(f.mb, e, fr))
  }

  /** Exponent and fraction fields together: one step up in the exponent per halving. */
  function Encode(mb: nat, x: nat): nat
    decreases x, mb
  {
    if x < Pow2(mb + 1) then x else Pow2(mb) + Encode(mb, x / 2)
  }

  function Bits(f: Format, v: Num): nat {
    match v
    case NaN => Pack(f, 0, ExpAll(f), Pow2(f.mb - 1))
    case Inf(neg) => Pack(f, if neg then 1 else 0, ExpAll(f), 0)
    case Fin(neg, mag) => Pack(f, if neg then 1 else 0, 0, Encode(f.mb, mag))
  }

  lemma PackFields(f: Format, s: nat, e: nat, fr: nat)
    requires e < Pow2(f.eb) && fr < Pow2(f.mb)
    ensures SignField(f, Pack(f, s, e, fr)) == s
    ensures ExpField(f, Pack(f, s, e, fr)) == e
    ensures FracField(f, Pack(f, s, e, fr)) == fr
    ensures s <= 1 ==> IsWord(f, Pack(f, s, e, fr))
  {
    var w := Pack(f, s, e, fr);
    ShlNat(s, f.eb);
    ShlNat(e, f.mb);
    ShlShl(s, f.eb, f.mb);
    ShlAdd(Shl(s, f.eb), e, f.mb);
    LowUnique(w, f.mb, Shl(s, f.eb) + e, fr);
    LowUnique(Shl(s, f.eb) + e, f.eb, s, e);
    ShlShl(1, f.eb, f.mb);
    ShlAdd(e, 1, f.mb);
    ShlMono(e + 1, Pow2(f.eb), f.mb);
    LowUnique(w, f.eb + f.mb, s, Shl(e, f.mb) + fr);
    ShlZero(f.eb + f.mb);
  }

  lemma ValueOfPack(f: Format, s: nat, e: nat, fr: nat)
    requires s <= 1 && e < ExpAll(f) && fr < Pow2(f.mb)
    ensures IsWord(f, Pack(f, s, e, fr)) && Value(f, Pack(f, s, e, fr)) == Fin(s == 1, Decode(f.mb, e, fr))
  {
    PackFields(f, s, e, fr);
  }

  lemma FieldsPack(f: Format, w: nat)
    ensures w == Pack(f, SignField(f, w), ExpField(f, w), FracField(f, w))
    ensures IsWord(f, w) ==> SignField(f, w) <= 1
    ensures ExpField(f, w) <= ExpAll(f)
  {
    var h := Shr(w, f.mb);
    var s := Shr(h, f.eb);
    ShlAdd(Shl(s, f.eb), Low(h, f.eb), f.mb);
    ShlShl(s, f.eb, f.mb);
    ShlNat(s, f.eb);
    PackFields(f, s, Low(h, f.eb), Low(w, f.mb));
    if IsWord(f, w) {
      ShlMono(2, s, f.eb + f.mb);
      ShlShl(1, 1, f.eb + f.mb);
      ShlNat(Low(h, f.eb), f.mb);
    }
  }

  lemma {:induction false} EncodeDecode(mb: nat, e: nat, fr: nat)
    requires fr < Pow2(mb)
    ensures Shl(e, mb) >= 0 && Encode(mb, Decode(mb, e, fr)) == Shl(e, mb) + fr
    ensures Representable(mb + 1, Decode(mb, e, fr))
    ensures Decode(mb, e, fr) < Pow2(mb + 1 + if e == 0 then 0 else e - 1)
    decreases e
  {
    ShlNat(e, mb);
    ShlZero(mb);
    if e >= 2 {
      EncodeDecode(mb, e - 1, fr);
      var d := Decode(mb, e - 1, fr);
      assert Decode(mb, e, fr) == 2 * d && (2 * d) / 2 == d;
      ShlGrows(Pow2(mb) + fr, 1, e - 1);
      ShlAdd(e - 1, 1, mb);
    }
  }

  lemma {:induction false} EncodeFields(mb: nat, x: nat) returns (e: nat, fr: nat)
    requires Representable(mb + 1, x)
    ensures fr < Pow2(mb) && x == Decode(mb, e, fr)
    ensures Shl(e, mb) >= 0 && Encode(mb, x) == Shl(e, mb) + fr
    ensures e == 0 || Pow2(mb + e - 1) <= x
    decreases x
  {
    ShlZero(mb);
    if x < Pow2(mb) {
      e, fr := 0, x;
    } else if x < Pow2(mb + 1) {
      e, fr := 1, x - Pow2(mb);
    } else {
      e, fr := EncodeFields(mb, x / 2);
      ShlAdd(e, 1, mb);
      e := e + 1;
    }
  }

  lemma ValueIsNum(f: Format, w: nat)
    ensures IsNum(f, Value(f, w))
  {
    var e := ExpField(f, w);
    EncodeDecode(f.mb, e, FracField(f, w));
    if e < ExpAll(f) {
      Pow2Mono(f.mb + 1 + (if e == 0 then 0 else e - 1), f.mb + 1 + TopExp(f));
    }
  }

  /** Decoding undoes encoding. */
  lemma ValueOfBits(f: Format, v: Num)
    requires IsNum(f, v)
    ensures IsWord(f, Bits(f, v)) && Value(f, Bits(f, v)) == v
  {
    match v
    case NaN =>
      PackFields(f, 0, ExpAll(f), Pow2(f.mb - 1));
    case Inf(neg) =>
      PackFields(f, if neg then 1 else 0, ExpAll(f), 0);
    case Fin(neg, mag) =>
      var e, fr := EncodeFields(f.mb, mag);
      if e > TopExp(f) + 1 {
        Pow2Mono(f.mb + 1 + TopExp(f), f.mb + e - 1);
      }
      ShlZero(f.mb);
      PackFields(f, if neg then 1 else 0, e, fr);
  }

  /** Encoding undoes decoding, except that all NaNs become one. */
  lemma BitsOfValue(f: Format, w: nat)
    requires IsWord(f, w) && Value(f, w) != NaN
    ensures Bits(f, Value(f, w)) == w
  {
    FieldsPack(f, w);
    EncodeDecode(f.mb, ExpField(f, w), FracField(f, w));
    ShlZero(f.mb);
  }

  lemma ValueInjective(f: Format, w: nat, w': nat)
    requires IsWord(f, w) && IsWord(f, w') && Value(f, w) == Value(f, w') != NaN
    ensures w == w'
  {
    BitsOfValue(f, w);
    BitsOfValue(f, w');
  }
}
