/** The floating-point operations that the C code uses, each the exact result
    rounded once, first on values and then on the 64-bit and 32-bit words that
    C's `double` and `float` are stored as. */
module Arithmetic {
  import opened Binary
  import opened Ieee754

  function Signed(v: Num): int
    requires v.Fin?
  {
    if v.neg then 0 - v.mag else v.mag
  }

  function Abs(x: int): nat {
    if x < 0 then -x else x
  }

  function Negate(v: Num): Num {
    match v
    case NaN => NaN
    case Inf(neg) => Inf(!neg)
    case Fin(neg, mag) => Fin(!neg, mag)
  }

  /** A sum that is exactly zero takes its sign from IEEE 754-2008 section 6.3. */
  function Add(f: Format, dir: Direction, a: Num, b: Num): Num {
    if a.NaN? || b.NaN? then NaN
    else if a.Inf? then if b.Inf? && a.neg != b.neg then NaN else a
    else if b.Inf? then b
    else
      var s := Signed(a) + Signed(b);
      if s == 0 then Fin(if a.neg == b.neg then a.neg else dir == Downward, 0)
      else Round(f, dir, s < 0, Abs(s), 0)
  }

  function Sub(f: Format, dir: Direction, a: Num, b: Num): Num {
    Add(f, dir, a, Negate(b))
  }

  function Mul(f: Format, dir: Direction, a: Num, b: Num): Num {
    if a.NaN? || b.NaN? then NaN
    else if a.Inf? || b.Inf? then
      if a == Fin(a.neg, 0) || b == Fin(b.neg, 0) then NaN else Inf(a.neg != b.neg)
    else Round(f, dir, a.neg != b.neg, a.mag * b.mag, OneExp(f))
  }

  /** Where a value that is not NaN stands among the integers; both zeros stand at 0. */
  function Position(f: Format, v: Num): int
    requires v != NaN
  {
    match v
    case Inf(neg) => if neg then 0 - Limit(f) else Limit(f)
    case Fin(_, _) => Signed(v)
  }

  /** The C operator `<`. */
  predicate Less(f: Format, a: Num, b: Num) {
    a != NaN && b != NaN && Position(f, a) < Position(f, b)
  }

  /** Conversion between formats, as C does on assignment. */
  function Convert(f: Format, g: Format, dir: Direction, v: Num): Num {
    match v
    case NaN => NaN
    case Inf(neg) => Inf(neg)
    case Fin(neg, mag) => ShlNat(mag, OneExp(g)); Round(g, dir, neg, Shl(mag, OneExp(g)), OneExp(f))
  }

  lemma AddIsNum(f: Format, dir: Direction, a: Num, b: Num)
    requires a.Fin? && b.Fin?
    ensures IsNum(f, Add(f, dir, a, b))
  {
    var s := Signed(a) + Signed(b);
    PowRepresentable(Prec(f), 0);
    RoundIsNum(f, dir, s < 0, Abs(s), 0);
  }

  lemma OperationsGiveNumbers(f: Format, dir: Direction, a: Num, b: Num)
    requires IsNum(f, a) && IsNum(f, b)
    ensures IsNum(f, Negate(a))
    ensures IsNum(f, Add(f, dir, a, b))
    ensures IsNum(f, Sub(f, dir, a, b))
    ensures IsNum(f, Mul(f, dir, a, b))
  {
    PowRepresentable(Prec(f), 0);
    if a.Fin? && b.Fin? {
      RoundIsNum(f, dir, a.neg != b.neg, a.mag * b.mag, OneExp(f));
      AddIsNum(f, dir, a, b);
      AddIsNum(f, dir, a, Negate(b));
    }
  }

  lemma ConvertIsNum(f: Format, g: Format, dir: Direction, v: Num)
    ensures IsNum(g, Convert(f, g, dir, v))
  {
    if v.Fin? {
      ShlNat(v.mag, OneExp(g));
      RoundIsNum(g, dir, v.neg, Shl(v.mag, OneExp(g)), OneExp(f));
    }
  }

  lemma RoundOfNumber(f: Format, dir: Direction, neg: bool, x: nat)
    requires Representable(Prec(f), x) && x < Limit(f)
    ensures Round(f, dir, neg, x, 0) == Fin(neg, x)
  {
    RoundExact(Prec(f), ModeFor(dir, neg), x, 0);
  }

  lemma AddNonzero(f: Format, dir: Direction, a: Num, b: Num, s: int)
    requires a.Fin? && b.Fin? && Signed(a) + Signed(b) == s != 0
    ensures Add(f, dir, a, b) == Round(f, dir, s < 0, Abs(s), 0)
  {
  }

  lemma AddIsRounded(f: Format, dir: Direction, a: Num, b: Num, d: nat)
    requires a.Fin? && b.Fin? && Signed(a) + Signed(b) == d > 0
    ensures Add(f, dir, a, b) == Round(f, dir, false, d, 0)
  {
  }

  lemma SubIsRounded(f: Format, dir: Direction, a: Num, b: Num, d: nat)
    requires a.Fin? && b.Fin? && Signed(a) - Signed(b) == d > 0
    ensures Sub(f, dir, a, b) == Round(f, dir, false, d, 0)
  {
    AddIsRounded(f, dir, a, Negate(b), d);
  }

  /** A sum that the format can represent is computed exactly. */
  lemma AddExact(f: Format, dir: Direction, a: Num, b: Num)
    requires a.Fin? && b.Fin?
    requires Representable(Prec(f), Abs(Signed(a) + Signed(b))) && Abs(Signed(a) + Signed(b)) < Limit(f)
    ensures Add(f, dir, a, b).Fin? && Signed(Add(f, dir, a, b)) == Signed(a) + Signed(b)
  {
    var s := Signed(a) + Signed(b);
    if s < 0 {
      RoundOfNumber(f, dir, true, 0 - s);
    } else if s > 0 {
      RoundOfNumber(f, dir, false, s);
    }
  }

  /** 0.5 */
  function Half(f: Format): Num {
    Fin(false, Pow2(OneExp(f) - 1))
  }

  // ---- double and float ----

  function Widths64(): Format {
    assert Pow2(10) == 1024;
    Format(11, 52)
  }

  function Widths32(): Format {
    assert Pow2(7) == 128;
    Format(8, 23)
  }

  const B64: Format := Widths64()
  const B32: Format := Widths32()

  type Double = w: nat | IsWord(B64, w) witness 0
  type Float = w: nat | IsWord(B32, w) witness 0

  /** The value of a stored double; D is its inverse. */
  function V(x: Double): (v: Num)
    ensures IsNum(B64, v)
  {
    ValueIsNum(B64, x);
    Value(B64, x)
  }

  /** The value of a stored float; F is its inverse. */
  function VF(x: Float): (v: Num)
    ensures IsNum(B32, v)
  {
    ValueIsNum(B32, x);
    Value(B32, x)
  }

  function D(v: Num): (x: Double)
    requires IsNum(B64, v)
    ensures V(x) == v
  {
    ValueOfBits(B64, v);
    Bits(B64, v)
  }

  function F(v: Num): (x: Float)
    requires IsNum(B32, v)
    ensures VF(x) == v
  {
    ValueOfBits(B32, v);
    Bits(B32, v)
  }

  // The arithmetic instructions on stored doubles.

  method Neg64(x: Double) returns (r: Double)
    ensures V(r) == Negate(V(x))
  {
    OperationsGiveNumbers(B64, ToNearest, V(x), V(x));
    r := D(Negate(V(x)));
  }

  method Add64(dir: Direction, x: Double, y: Double) returns (r: Double)
    ensures V(r) == Add(B64, dir, V(x), V(y))
  {
    OperationsGiveNumbers(B64, dir, V(x), V(y));
    r := D(Add(B64, dir, V(x), V(y)));
  }

  method Sub64(dir: Direction, x: Double, y: Double) returns (r: Double)
    ensures V(r) == Sub(B64, dir, V(x), V(y))
  {
    OperationsGiveNumbers(B64, dir, V(x), V(y));
    r := D(Sub(B64, dir, V(x), V(y)));
  }

  method Mul64(dir: Direction, x: Double, y: Double) returns (r: Double)
    ensures V(r) == Mul(B64, dir, V(x), V(y))
  {
    OperationsGiveNumbers(B64, dir, V(x), V(y));
    r := D(Mul(B64, dir, V(x), V(y)));
  }

  method Widen(dir: Direction, x: Float) returns (r: Double)
    ensures V(r) == Convert(B32, B64, dir, VF(x))
  {
    ConvertIsNum(B32, B64, dir, VF(x));
    r := D(Convert(B32, B64, dir, VF(x)));
  }

  method Narrow(dir: Direction, x: Double) returns (r: Float)
    ensures VF(r) == Convert(B64, B32, dir, V(x))
  {
    ConvertIsNum(B64, B32, dir, V(x));
    r := F(Convert(B64, B32, dir, V(x)));
  }

  lemma Constants()
    ensures Prec(B64) == 53 && ExpAll(B64) == 0x7ff && TopExp(B64) == 2045 && OneExp(B64) == 1074
    ensures Prec(B32) == 24 && ExpAll(B32) == 0xff && TopExp(B32) == 253 && OneExp(B32) == 149
    ensures B64.eb == 11 && B64.mb == 52 && B32.eb == 8 && B32.mb == 23
  {
    assert Pow2(11) == 2048 && Pow2(8) == 256;
    assert Pow2(10) == 1024 && Pow2(7) == 128;
  }

  /** `u.i >> 52 & 0x7ff` is the exponent field. */
  lemma ExponentField(w: Double) returns (e: nat)
    ensures e == And(Shr(w, 52), 0x7ff) == ExpField(B64, w) <= 0x7ff
    ensures e == 0x7ff <==> !V(w).Fin?
  {
    Constants();
    FieldsPack(B64, w);
    AndLow(Shr(w, 52), 11);
    e := ExpField(B64, w);
  }

  /** `u.i >> 52 & 0x7ff` and `u.i >> 63` are the exponent field and the sign. */
  lemma DoubleFields(w: Double)
    ensures And(Shr(w, 52), 0x7ff) == ExpField(B64, w) <= 0x7ff
    ensures Shr(w, 63) == SignField(B64, w) <= 1
    ensures Shr(w, 63) != 0 && V(w).Fin? ==> V(w).neg
    ensures Shr(w, 63) == 0 && V(w).Fin? ==> !V(w).neg
    ensures ExpField(B64, w) == 0x7ff <==> !V(w).Fin?
  {
    Constants();
    FieldsPack(B64, w);
    var e := ExponentField(w);
  }
}
