/** fpclassify, signbit and the predicates of math.h, and fmin, fmax and fdim,
    for both formats: with binary64 the shift counts below are 52, 63 and 12 and the
    mask is 0x7ff, with binary32 they are 23, 31 and 9 and 0xff (see Arithmetic.Constants). */
module Classify {
  import opened Binary
  import opened Ieee754
  import opened Arithmetic
  import Directions
  import Scaling
  import DoubleRounding

  const FP_NAN := 0x0100
  const FP_NORMAL := 0x0400
  const FP_ZERO := 0x4000
  const FP_INFINITE := Or(FP_NAN, FP_NORMAL)
  const FP_SUBNORMAL := Or(FP_NORMAL, FP_ZERO)

  /** The class codes live in the second byte. */
  lemma OrByte(a: nat, b: nat)
    ensures Or(256 * a, 256 * b) == 256 * Or(a, b)
  {
    Times256(a);
    Times256(b);
    Times256(Or(a, b));
    OrSplit(8, a, 0, b, 0);
  }

  lemma AndByte(a: nat, b: nat)
    ensures And(256 * a, 256 * b) == 256 * And(a, b)
  {
    Times256(a);
    Times256(b);
    Times256(And(a, b));
    AndSplit(8, a, 0, b, 0);
  }

  lemma Codes()
    ensures FP_INFINITE == 0x0500 && FP_SUBNORMAL == 0x4400
    ensures And(FP_NAN, FP_NAN) != 0 && And(FP_INFINITE, FP_NAN) != 0
    ensures And(FP_NORMAL, FP_NAN) == 0 && And(FP_ZERO, FP_NAN) == 0 && And(FP_SUBNORMAL, FP_NAN) == 0
  {
    OrByte(0x1, 0x4);
    OrByte(0x4, 0x40);
    AndByte(0x1, 0x1);
    AndByte(0x5, 0x1);
    AndByte(0x4, 0x1);
    AndByte(0x40, 0x1);
    AndByte(0x44, 0x1);
  }

  /** `<<` on words of the format: bits shifted past the top are lost. */
  function ShiftLeft(f: Format, w: nat, k: nat): nat {
    ShlNat(w, k);
    Low(Shl(w, k), 1 + f.eb + f.mb)
  }

  function Fpclassify(f: Format, w: nat): nat {
    var e := And(Shr(w, f.mb), ExpAll(f));
    if e == 0 then if ShiftLeft(f, w, 1) != 0 then FP_SUBNORMAL else FP_ZERO
    else if e == ExpAll(f) then if ShiftLeft(f, w, 1 + f.eb) != 0 then FP_NAN else FP_INFINITE
    else FP_NORMAL
  }

  function Signbit(f: Format, w: nat): nat {
    Shr(w, f.eb + f.mb)
  }

  /** The classes of ISO/IEC 9899:1999 section 7.12 by value; a normal number is at least
      2^mb units. */
  function ClassOf(f: Format, v: Num): nat {
    match v
    case NaN => FP_NAN
    case Inf(_) => FP_INFINITE
    case Fin(_, mag) => if mag == 0 then FP_ZERO else if mag < Pow2(f.mb) then FP_SUBNORMAL else FP_NORMAL
  }

  /** `u.i << (1 + eb)` is nonzero exactly when the fraction field is. */
  lemma ShiftOutExponent(f: Format, w: nat)
    ensures ShiftLeft(f, w, 1 + f.eb) == 0 <==> FracField(f, w) == 0
  {
    var h, fr, s := Shr(w, f.mb), FracField(f, w), 1 + f.eb;
    ShlNat(fr, s);
    ShlNat(w, s);
    ShlShl(h, f.mb, s);
    ShlAdd(Shl(h, f.mb), fr, s);
    ShlMono(fr, Pow2(f.mb), s);
    ShlShl(1, f.mb, s);
    LowUnique(Shl(w, s), s + f.mb, h, Shl(fr, s));
    ShlZero(s);
    ShlMono(0, fr, s);
  }

  /** `u.i << 1` is nonzero exactly when some bit below the sign is. */
  lemma ShiftOutSign(f: Format, w: nat)
    requires ExpField(f, w) == 0
    ensures ShiftLeft(f, w, 1) == 0 <==> FracField(f, w) == 0
  {
    FieldsPack(f, w);
    var s, fr, n := SignField(f, w), FracField(f, w), f.eb + f.mb;
    ShlZero(f.mb);
    Pow2Mono(f.mb, n);
    ShlNat(s, n);
    LowUnique(2 * w, 1 + n, s, 2 * fr);
    assert Shl(w, 1) == 2 * Shl(w, 0);
  }

  /** The bit tests of fpclassify find the class of the value. */
  lemma FpclassifyIsClass(f: Format, w: nat)
    requires IsWord(f, w)
    ensures Fpclassify(f, w) == ClassOf(f, Value(f, w))
    ensures Value(f, w) != NaN ==> (Signbit(f, w) != 0 <==> Value(f, w).neg)
  {
    AndLow(Shr(w, f.mb), f.eb);
    FieldsPack(f, w);
    ShiftOutExponent(f, w);
    var e := ExpField(f, w);
    if e == 0 {
      ShiftOutSign(f, w);
    } else if e < ExpAll(f) {
      ShlGrows(Pow2(f.mb) + FracField(f, w), 0, e - 1);
    }
  }

  /** The codes that the two functions return, in numbers. */
  lemma FpclassifyCodes(f: Format, w: nat)
    requires IsWord(f, w)
    ensures Fpclassify(f, w) == match Value(f, w)
      case NaN => 0x0100
      case Inf(_) => 0x0500
      case Fin(_, mag) => if mag == 0 then 0x4000 else if mag < Pow2(f.mb) then 0x4400 else 0x0400
  {
    FpclassifyIsClass(f, w);
    Codes();
  }

  predicate Isfinite(f: Format, w: nat) { And(Fpclassify(f, w), FP_NAN) == 0 }
  predicate Isinf(f: Format, w: nat) { Fpclassify(f, w) == FP_INFINITE }
  predicate Isnan(f: Format, w: nat) { Fpclassify(f, w) == FP_NAN }
  predicate Isnormal(f: Format, w: nat) { Fpclassify(f, w) == FP_NORMAL }

  /** The predicates of math.h mean what their names say, and agree with one another. */
  lemma PredicatesMean(f: Format, w: nat)
    requires IsWord(f, w)
    ensures Isnan(f, w) <==> Value(f, w) == NaN
    ensures Isinf(f, w) <==> Value(f, w).Inf?
    ensures Isfinite(f, w) <==> Value(f, w).Fin?
    ensures Isnormal(f, w) <==> Value(f, w).Fin? && Value(f, w).mag >= Pow2(f.mb)
    ensures Isfinite(f, w) <==> !Isnan(f, w) && !Isinf(f, w)
  {
    FpclassifyIsClass(f, w);
    Codes();
  }

  /** Widening a float to a double keeps its class, except that subnormals become normal. */
  lemma WideningKeepsClass(dir: Direction, v: Num)
    requires IsNum(B32, v)
    ensures ClassOf(B64, Convert(B32, B64, dir, v))
         == if ClassOf(B32, v) == FP_SUBNORMAL then FP_NORMAL else ClassOf(B32, v)
  {
    Constants();
    Codes();
    Scaling.DoubleExtendsFloat();
    Scaling.WidenIsExact(B64, B32, dir, v);
    if v.Fin? {
      ShlZero(925);
      if v.mag > 0 {
        ShlMono(1, v.mag, 925);
        Pow2Mono(52, 925);
      }
    }
  }

  // ---- fmin, fmax ----

  /** TCCFP_FMIN_EVAL */
  function Fmin(f: Format, x: nat, y: nat): nat {
    if Isnan(f, x) then y
    else if Isnan(f, y) then x
    else if Signbit(f, x) != Signbit(f, y) then if Signbit(f, x) != 0 then x else y
    else if Less(f, Value(f, x), Value(f, y)) then x else y
  }

  /** TCCFP_FMAX_EVAL */
  function Fmax(f: Format, x: nat, y: nat): nat {
    if Isnan(f, x) then y
    else if Isnan(f, y) then x
    else if Signbit(f, x) != Signbit(f, y) then if Signbit(f, x) != 0 then y else x
    else if Less(f, Value(f, x), Value(f, y)) then y else x
  }

  /** A total order on the values other than NaN in which -0 is below +0. */
  function Rank(f: Format, v: Num): int
    requires v != NaN
  {
    match v
    case Inf(neg) => if neg then 0 - Limit(f) - 1 else Limit(f)
    case Fin(neg, mag) => if neg then 0 - mag - 1 else mag
  }

  lemma RankInjective(f: Format, v: Num, w: Num)
    requires IsNum(f, v) && IsNum(f, w) && v != NaN && w != NaN && Rank(f, v) == Rank(f, w)
    ensures v == w
  {
  }

  /** minNum of IEEE 754-2008 section 5.3.1 with the zeros ordered: NaN is missing data. */
  function MinNum(f: Format, v: Num, w: Num): Num {
    if v == NaN then w else if w == NaN then v
    else if Rank(f, v) <= Rank(f, w) then v else w
  }

  function MaxNum(f: Format, v: Num, w: Num): Num {
    if v == NaN then w else if w == NaN then v
    else if Rank(f, v) <= Rank(f, w) then w else v
  }

  /** What fmin and fmax find out about an argument. */
  lemma ArgumentTests(f: Format, x: nat)
    requires IsWord(f, x)
    ensures IsNum(f, Value(f, x)) && (Isnan(f, x) <==> Value(f, x) == NaN)
    ensures Signbit(f, x) <= 1 && (Value(f, x) != NaN ==> (Signbit(f, x) == 1 <==> Value(f, x).neg))
  {
    PredicatesMean(f, x);
    FpclassifyIsClass(f, x);
    FieldsPack(f, x);
    ValueIsNum(f, x);
  }

  /** The order that fmin and fmax decide by: signs first, then `<`. */
  lemma RankOrder(f: Format, v: Num, w: Num)
    requires IsNum(f, v) && IsNum(f, w) && v != NaN && w != NaN
    ensures v.neg && !w.neg ==> Rank(f, v) < Rank(f, w)
    ensures v.neg == w.neg ==> (Less(f, v, w) <==> Rank(f, v) < Rank(f, w))
    ensures Rank(f, v) < Rank(f, w) <==> Less(f, v, w) || (v == Fin(true, 0) && w == Fin(false, 0))
    ensures Rank(f, v) == Rank(f, w) ==> v == w
  {
  }

  lemma FminIsMinNum(f: Format, x: nat, y: nat)
    requires IsWord(f, x) && IsWord(f, y)
    ensures Value(f, Fmin(f, x, y)) == MinNum(f, Value(f, x), Value(f, y))
    ensures Value(f, Fmax(f, x, y)) == MaxNum(f, Value(f, x), Value(f, y))
    ensures IsWord(f, Fmin(f, x, y)) && IsWord(f, Fmax(f, x, y))
  {
    ArgumentTests(f, x);
    ArgumentTests(f, y);
    var v, w := Value(f, x), Value(f, y);
    if v != NaN && w != NaN {
      RankOrder(f, v, w);
      RankOrder(f, w, v);
    }
  }

  /** Any bracketing of any arguments: the calls of fmin in an expression. */
  datatype Calls = Arg(x: nat) | Call(left: Calls, right: Calls)

  ghost predicate AreWords(f: Format, t: Calls) {
    match t
    case Arg(x) => IsWord(f, x)
    case Call(l, r) => AreWords(f, l) && AreWords(f, r)
  }

  function EvalFmin(f: Format, t: Calls): nat {
    match t
    case Arg(x) => x
    case Call(l, r) => Fmin(f, EvalFmin(f, l), EvalFmin(f, r))
  }

  function EvalFmax(f: Format, t: Calls): nat {
    match t
    case Arg(x) => x
    case Call(l, r) => Fmax(f, EvalFmax(f, l), EvalFmax(f, r))
  }

  function Arguments(f: Format, t: Calls): set<Num> {
    match t
    case Arg(x) => {Value(f, x)}
    case Call(l, r) => Arguments(f, l) + Arguments(f, r)
  }

  /** m is the least (greatest) number in s, or NaN if there is none. */
  ghost predicate IsExtreme(f: Format, s: set<Num>, m: Num, least: bool) {
    && m in s
    && forall v | v in s && v != NaN :: m != NaN && if least then Rank(f, m) <= Rank(f, v) else Rank(f, v) <= Rank(f, m)
  }

  lemma {:induction false} EvalIsExtreme(f: Format, t: Calls)
    requires AreWords(f, t)
    ensures IsWord(f, EvalFmin(f, t)) && IsWord(f, EvalFmax(f, t))
    ensures IsExtreme(f, Arguments(f, t), Value(f, EvalFmin(f, t)), true)
    ensures IsExtreme(f, Arguments(f, t), Value(f, EvalFmax(f, t)), false)
    ensures forall v | v in Arguments(f, t) :: IsNum(f, v)
  {
    match t
    case Arg(x) => ValueIsNum(f, x);
    case Call(l, r) =>
      EvalIsExtreme(f, l);
      EvalIsExtreme(f, r);
      FminIsMinNum(f, EvalFmin(f, l), EvalFmin(f, r));
      FminIsMinNum(f, EvalFmax(f, l), EvalFmax(f, r));
  }

  lemma ExtremeUnique(f: Format, s: set<Num>, m: Num, s': set<Num>, m': Num, least: bool)
    requires IsExtreme(f, s, m, least) && IsExtreme(f, s', m', least)
    requires s - {NaN} == s' - {NaN}
    requires forall v | v in s :: IsNum(f, v)
    ensures m == m'
  {
    assert forall v :: v in s && v != NaN <==> v in s - {NaN};
    assert forall v :: v in s' && v != NaN <==> v in s' - {NaN};
    if m != NaN && m' != NaN {
      assert m in s' && m' in s;
      RankInjective(f, m, m');
    }
  }

  /** The value depends only on which values occur: not on order, bracketing or repetition,
      and, if some number occurs, not on whether NaN does. */
  lemma EvalDependsOnArguments(f: Format, t: Calls, u: Calls)
    requires AreWords(f, t) && AreWords(f, u)
    requires Arguments(f, t) - {NaN} == Arguments(f, u) - {NaN}
    ensures Value(f, EvalFmin(f, t)) == Value(f, EvalFmin(f, u))
    ensures Value(f, EvalFmax(f, t)) == Value(f, EvalFmax(f, u))
  {
    EvalIsExtreme(f, t);
    EvalIsExtreme(f, u);
    ExtremeUnique(f, Arguments(f, t), Value(f, EvalFmin(f, t)), Arguments(f, u), Value(f, EvalFmin(f, u)), true);
    ExtremeUnique(f, Arguments(f, t), Value(f, EvalFmax(f, t)), Arguments(f, u), Value(f, EvalFmax(f, u)), false);
  }

  lemma MaxNumIsDual(f: Format, v: Num, w: Num)
    requires IsNum(f, v) && IsNum(f, w)
    ensures MaxNum(f, v, w) == Negate(MinNum(f, Negate(v), Negate(w)))
  {
    if v != NaN && w != NaN && Rank(f, v) == Rank(f, w) {
      RankInjective(f, v, w);
    }
  }

  /** fmax(x, y) is -fmin(-x, -y), x' and y' being the words of -x and -y. */
  lemma FmaxIsDual(f: Format, x: nat, y: nat, x': nat, y': nat)
    requires IsWord(f, x) && IsWord(f, y) && IsWord(f, x') && IsWord(f, y')
    requires Value(f, x') == Negate(Value(f, x)) && Value(f, y') == Negate(Value(f, y))
    ensures Value(f, Fmax(f, x, y)) == Negate(Value(f, Fmin(f, x', y')))
  {
    FminIsMinNum(f, x, y);
    FminIsMinNum(f, x', y');
    ValueIsNum(f, x);
    ValueIsNum(f, y);
    MaxNumIsDual(f, Value(f, x), Value(f, y));
  }

  // ---- fdim ----

  function Fdim(f: Format, dir: Direction, x: nat, y: nat): nat {
    if Isnan(f, x) || Isnan(f, y) then Bits(f, NaN)
    else if Less(f, Value(f, y), Value(f, x)) then Bits(f, Sub(f, dir, Value(f, x), Value(f, y)))
    else 0
  }

  /** A positive number of units is not rounded to zero. */
  lemma RoundNotZero(f: Format, dir: Direction, d: nat)
    requires d > 0
    ensures Round(f, dir, false, d, 0) != NaN && !Round(f, dir, false, d, 0).neg
    ensures Round(f, dir, false, d, 0) != Fin(false, 0)
  {
    var p, m := Prec(f), ModeFor(dir, false);
    PowRepresentable(p, 0);
    RoundExact(p, m, Pow2(0), 0);
    RoundMono(p, m, 1, d, 0);
    MaxMagIsNum(f);
  }

  /** Gradual underflow: the rounded difference of distinct numbers is not zero, and it has
      the sign of the exact difference. */
  lemma DifferenceNotZero(f: Format, dir: Direction, v: Num, w: Num)
    requires IsNum(f, v) && IsNum(f, w) && Less(f, w, v)
    ensures Sub(f, dir, v, w) != NaN && !Sub(f, dir, v, w).neg && Sub(f, dir, v, w) != Fin(false, 0)
  {
    if v.Fin? && w.Fin? {
      SubIsRounded(f, dir, v, w, Signed(v) - Signed(w));
      RoundNotZero(f, dir, Signed(v) - Signed(w));
    }
  }

  lemma ZeroWord(f: Format)
    ensures Value(f, 0) == Fin(false, 0)
  {
    ShlZero(f.eb + f.mb);
    ShlZero(f.mb);
    PackFields(f, 0, 0, 0);
  }

  /** r is the positive difference of v and w: ISO/IEC 9899:1999 section 7.12.12.1, with the
      rounding and overflow of the difference as the standard for arithmetic says them. */
  ghost predicate IsFdim(f: Format, dir: Direction, v: Num, w: Num, r: Num) {
    if v == NaN || w == NaN then r == NaN
    else if v.Fin? && w.Fin? then
      if Signed(v) <= Signed(w) then r == Fin(false, 0)
      else r != Fin(false, 0) && Directions.IsIeee(f, dir, false, Signed(v) - Signed(w), 0, r)
    else if v == w || v == Inf(true) || w == Inf(false) then r == Fin(false, 0)
    else r == Inf(false)
  }

  lemma PositiveDifference(f: Format, dir: Direction, v: Num, w: Num)
    requires IsNum(f, v) && IsNum(f, w) && v != NaN && w != NaN
    ensures Less(f, w, v) ==> IsFdim(f, dir, v, w, Sub(f, dir, v, w))
    ensures !Less(f, w, v) ==> IsFdim(f, dir, v, w, Fin(false, 0))
  {
    Directions.LessIsOrder(f, w, v);
    if Less(f, w, v) {
      DifferenceNotZero(f, dir, v, w);
      if v.Fin? && w.Fin? {
        Directions.AddIsIeee(f, dir, v, Negate(w), false, Signed(v) - Signed(w));
      } else {
        Directions.SpecialOperands(f, f, dir, v, Negate(w));
        Directions.SpecialOperands(f, f, dir, Negate(w), v);
      }
    }
  }

  /** For numbers, fdim is never negative (not even -0), is zero exactly when x <= y, and is
      otherwise the difference rounded once. */
  lemma FdimMeaning(f: Format, dir: Direction, x: nat, y: nat)
    requires IsWord(f, x) && IsWord(f, y)
    ensures IsFdim(f, dir, Value(f, x), Value(f, y), Value(f, Fdim(f, dir, x, y)))
    ensures Value(f, Fdim(f, dir, x, y)) == NaN <==> Value(f, x) == NaN || Value(f, y) == NaN
    ensures Value(f, x) != NaN && Value(f, y) != NaN ==>
      && !Value(f, Fdim(f, dir, x, y)).neg
      && (Value(f, Fdim(f, dir, x, y)) == Fin(false, 0) <==> Position(f, Value(f, x)) <= Position(f, Value(f, y)))
      && (Position(f, Value(f, x)) > Position(f, Value(f, y)) ==>
            Value(f, Fdim(f, dir, x, y)) == Sub(f, dir, Value(f, x), Value(f, y)))
  {
    PredicatesMean(f, x);
    PredicatesMean(f, y);
    ValueIsNum(f, x);
    ValueIsNum(f, y);
    var v, w := Value(f, x), Value(f, y);
    ValueOfBits(f, NaN);
    ZeroWord(f);
    OperationsGiveNumbers(f, dir, v, w);
    if v != NaN && w != NaN {
      PositiveDifference(f, dir, v, w);
    }
    if v != NaN && w != NaN && Less(f, w, v) {
      DifferenceNotZero(f, dir, v, w);
      ValueOfBits(f, Sub(f, dir, v, w));
    }
  }

  /** Only one number is the positive difference. */
  lemma FdimUnique(f: Format, dir: Direction, v: Num, w: Num, r: Num, r': Num)
    requires IsFdim(f, dir, v, w, r) && IsFdim(f, dir, v, w, r')
    ensures r == r'
  {
    if v.Fin? && w.Fin? && Signed(v) > Signed(w) {
      Directions.IeeeUnique(f, dir, false, Signed(v) - Signed(w), 0, r, r');
    }
  }

  /** fdimf, the difference being computed in double and converted to float: the positive difference
      for float all the same, and so the float that Fdim gives. */
  method FdimfInDouble(dir: Direction, x: Float, y: Float) returns (r: Float)
    ensures IsFdim(B32, dir, VF(x), VF(y), VF(r))
  {
    PredicatesMean(B32, x);
    PredicatesMean(B32, y);
    if Isnan(B32, x) || Isnan(B32, y) {
      return F(NaN);
    }
    PositiveDifference(B32, dir, VF(x), VF(y));
    if Less(B32, VF(y), VF(x)) {
      var a := Widen(dir, x);
      var b := Widen(dir, y);
      a := Sub64(dir, a, b);
      r := Narrow(dir, a);
      DoubleRounding.DoubleExtendsFloatForSums();
      DoubleRounding.DifferenceInWider(B64, B32, dir, VF(x), VF(y));
    } else {
      ZeroWord(B32);
      r := 0;
    }
  }
}
