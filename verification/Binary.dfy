/** Scaling by powers of two, and the bitwise operators of C on unsigned words.

    Shl and And are defined one binary digit at a time. That keeps every later
    argument inside linear arithmetic, and it means that each mask used by the
    modelled code has to be proved to do what it is meant to do. */
module Binary {
  /** x * 2^k */
  function Shl(x: int, k: nat): int
    decreases k, x
  {
    if k == 0 then x else 2 * Shl(x, k - 1)
  }

  /** The floor of x / 2^k. */
  function Shr(x: nat, k: nat): nat
    decreases k, x
  {
    if k == 0 then x else Shr(x, k - 1) / 2
  }

  lemma {:induction false} ShlZero(k: nat)
    ensures Shl(0, k) == 0
    decreases k
  {
    if k != 0 {
      ShlZero(k - 1);
    }
  }

  lemma {:induction false} ShlMono(x: int, y: int, k: nat)
    ensures x <= y <==> Shl(x, k) <= Shl(y, k)
    ensures x < y <==> Shl(x, k) < Shl(y, k)
    decreases k
  {
    if k != 0 {
      ShlMono(x, y, k - 1);
    }
  }

  function Pow2(k: nat): (p: nat)
    ensures p > 0
  {
    ShlMono(0, 1, k);
    ShlZero(k);
    Shl(1, k)
  }

  lemma {:induction false} ShlAdd(x: int, y: int, k: nat)
    ensures Shl(x + y, k) == Shl(x, k) + Shl(y, k)
    ensures Shl(x - y, k) == Shl(x, k) - Shl(y, k)
    decreases k
  {
    if k != 0 {
      ShlAdd(x, y, k - 1);
    }
  }

  lemma {:induction false} ShlShl(x: int, a: nat, b: nat)
    ensures Shl(Shl(x, a), b) == Shl(x, a + b)
    decreases b
  {
    if b != 0 {
      ShlShl(x, a, b - 1);
    }
  }

  lemma {:induction false} ShlNat(x: nat, k: nat)
    ensures Shl(x, k) >= 0
    decreases k
  {
    if k != 0 {
      ShlNat(x, k - 1);
    }
  }

  /** Scaling a natural number further never makes it smaller. */
  lemma {:induction false} ShlGrows(x: nat, a: nat, b: nat)
    requires a <= b
    ensures Shl(x, a) <= Shl(x, b)
    ensures 0 <= Shl(x, a)
    ensures x > 0 && a < b ==> 2 * Shl(x, a) <= Shl(x, b)
    decreases b
  {
    ShlZero(a);
    ShlMono(0, x, a);
    if a < b {
      ShlGrows(x, a, b - 1);
    }
  }

  lemma Pow2Mono(a: nat, b: nat)
    requires a <= b
    ensures Pow2(a) <= Pow2(b)
    ensures a < b ==> 2 * Pow2(a) <= Pow2(b)
  {
    ShlGrows(1, a, b);
  }

  lemma ShlBelow(x: int, p: nat, k: nat)
    requires x < Pow2(p)
    ensures Shl(x, k) < Pow2(p + k)
  {
    ShlMono(x, Pow2(p), k);
    ShlShl(1, p, k);
  }

  lemma ShlAbove(x: int, p: nat, k: nat)
    requires x >= Pow2(p)
    ensures Shl(x, k) >= Pow2(p + k)
  {
    ShlMono(Pow2(p), x, k);
    ShlShl(1, p, k);
  }

  /** The digit-wise definition is multiplication by a power of two. */
  lemma {:induction false} ShlIsMul(x: int, k: nat)
    ensures Shl(x, k) == x * Pow2(k)
    decreases k
  {
    if k != 0 {
      ShlIsMul(x, k - 1);
      assert x * (2 * Pow2(k - 1)) == 2 * (x * Pow2(k - 1));
    }
  }

  lemma Times256(x: int)
    ensures Shl(x, 8) == 256 * x
  {
    assert Shl(x, 2) == 2 * Shl(x, 1);
    assert Shl(x, 4) == 4 * Shl(x, 2);
    assert Shl(x, 6) == 4 * Shl(x, 4);
  }

  lemma {:induction false} ShrBounds(x: nat, k: nat)
    ensures Shl(Shr(x, k), k) <= x < Shl(Shr(x, k) + 1, k)
    decreases k
  {
    if k != 0 {
      var q := Shr(x, k - 1);
      ShrBounds(x, k - 1);
      ShlShl(q / 2, 1, k - 1);
      ShlShl(q / 2 + 1, 1, k - 1);
      ShlMono(Shl(q / 2, 1), q, k - 1);
      ShlMono(q + 1, Shl(q / 2 + 1, 1), k - 1);
    }
  }

  lemma ShrUnique(x: nat, k: nat, q: int)
    requires Shl(q, k) <= x < Shl(q + 1, k)
    ensures Shr(x, k) == q
  {
    ShrBounds(x, k);
    ShlMono(q, Shr(x, k) + 1, k);
    ShlMono(Shr(x, k), q + 1, k);
  }

  lemma ShrShl(x: nat, k: nat)
    ensures Shl(x, k) >= 0 && Shr(Shl(x, k), k) == x
  {
    ShlZero(k);
    ShlMono(0, x, k);
    ShlMono(x, x + 1, k);
    ShrUnique(Shl(x, k), k, x);
  }

  /** The part of x below bit k. */
  function Low(x: nat, k: nat): (r: nat)
    ensures r < Pow2(k)
    ensures x == Shl(Shr(x, k), k) + r
  {
    ShrBounds(x, k);
    ShlAdd(Shr(x, k), 1, k);
    x - Shl(Shr(x, k), k)
  }

  lemma LowUnique(x: nat, k: nat, q: nat, r: nat)
    requires x == Shl(q, k) + r && r < Pow2(k)
    ensures Shr(x, k) == q && Low(x, k) == r
  {
    ShlAdd(q, 1, k);
    ShrUnique(x, k, q);
  }

  // ---- bitwise operators ----

  function And(a: nat, b: nat): nat
    decreases a + b
  {
    if a == 0 || b == 0 then 0
    else 2 * And(a / 2, b / 2) + (if a % 2 == 1 && b % 2 == 1 then 1 else 0)
  }

  function Or(a: nat, b: nat): nat
    decreases a + b
  {
    if a == 0 then b else if b == 0 then a
    else 2 * Or(a / 2, b / 2) + (if a % 2 == 1 || b % 2 == 1 then 1 else 0)
  }

  /** `~m` on a word of w bits. */
  function Not(w: nat, m: nat): nat
    requires m < Pow2(w)
  {
    Pow2(w) - 1 - m
  }

  lemma AndStep(a: nat, b: nat)
    ensures And(a, b) == 2 * And(a / 2, b / 2) + (if a % 2 == 1 && b % 2 == 1 then 1 else 0)
  {
  }

  lemma OrStep(a: nat, b: nat)
    ensures Or(a, b) == 2 * Or(a / 2, b / 2) + (if a % 2 == 1 || b % 2 == 1 then 1 else 0)
  {
  }

  /** What And does to the last digits of two words. */
  lemma AndLast(u: nat, x: nat, b: nat, v: nat, y: nat, d: nat, q: nat)
    requires u == 2 * x + b && v == 2 * y + d
    requires And(x + b / 2, y + d / 2) == q + And(b / 2, d / 2)
    ensures And(u, v) == 2 * q + And(b, d)
  {
    AndStep(u, v);
    AndStep(b, d);
    assert u / 2 == x + b / 2 && v / 2 == y + d / 2;
  }

  lemma AndSplitStep(k: nat, a: nat, b: nat, c: nat, d: nat)
    requires k > 0 && Shl(a, k - 1) >= 0 && Shl(c, k - 1) >= 0 && Shl(a, k) >= 0 && Shl(c, k) >= 0
    requires And(Shl(a, k - 1) + b / 2, Shl(c, k - 1) + d / 2) == Shl(And(a, c), k - 1) + And(b / 2, d / 2)
    ensures And(Shl(a, k) + b, Shl(c, k) + d) == Shl(And(a, c), k) + And(b, d)
  {
    ShlNat(And(a, c), k - 1);
    AndLast(Shl(a, k) + b, Shl(a, k - 1), b, Shl(c, k) + d, Shl(c, k - 1), d, Shl(And(a, c), k - 1));
  }

  /** And works separately on the parts of two words above and below bit k. */
  lemma {:induction false} AndSplit(k: nat, a: nat, b: nat, c: nat, d: nat)
    requires b < Pow2(k) && d < Pow2(k)
    ensures Shl(a, k) >= 0 && Shl(c, k) >= 0
    ensures And(Shl(a, k) + b, Shl(c, k) + d) == Shl(And(a, c), k) + And(b, d)
    decreases k
  {
    ShlNat(a, k);
    ShlNat(c, k);
    if k != 0 {
      AndSplit(k - 1, a, b / 2, c, d / 2);
      AndSplitStep(k, a, b, c, d);
    }
  }

  lemma {:induction false} AndOnes(k: nat, b: nat)
    requires b < Pow2(k)
    ensures And(b, Pow2(k) - 1) == b
    decreases k
  {
    if k != 0 {
      var o := Pow2(k - 1);
      AndOnes(k - 1, b / 2);
      assert (2 * o - 1) / 2 == o - 1 && (2 * o - 1) % 2 == 1;
      AndStep(b, 2 * o - 1);
    }
  }

  /** Masking with k low ones keeps the part below bit k. */
  lemma AndLow(a: nat, k: nat)
    ensures And(a, Pow2(k) - 1) == Low(a, k)
  {
    ShlZero(k);
    AndSplit(k, Shr(a, k), Low(a, k), 0, Pow2(k) - 1);
    AndOnes(k, Low(a, k));
  }

  lemma OrLast(u: nat, x: nat, b: nat, v: nat, y: nat, d: nat, q: nat)
    requires u == 2 * x + b && v == 2 * y + d
    requires Or(x + b / 2, y + d / 2) == q + Or(b / 2, d / 2)
    ensures Or(u, v) == 2 * q + Or(b, d)
  {
    OrStep(u, v);
    OrStep(b, d);
    assert u / 2 == x + b / 2 && v / 2 == y + d / 2;
  }

  lemma OrSplitStep(k: nat, a: nat, b: nat, c: nat, d: nat)
    requires k > 0 && Shl(a, k - 1) >= 0 && Shl(c, k - 1) >= 0 && Shl(a, k) >= 0 && Shl(c, k) >= 0
    requires Or(Shl(a, k - 1) + b / 2, Shl(c, k - 1) + d / 2) == Shl(Or(a, c), k - 1) + Or(b / 2, d / 2)
    ensures Or(Shl(a, k) + b, Shl(c, k) + d) == Shl(Or(a, c), k) + Or(b, d)
  {
    ShlNat(Or(a, c), k - 1);
    OrLast(Shl(a, k) + b, Shl(a, k - 1), b, Shl(c, k) + d, Shl(c, k - 1), d, Shl(Or(a, c), k - 1));
  }

  /** Or works separately on the parts above and below bit k, too. */
  lemma {:induction false} OrSplit(k: nat, a: nat, b: nat, c: nat, d: nat)
    requires b < Pow2(k) && d < Pow2(k)
    ensures Shl(a, k) >= 0 && Shl(c, k) >= 0
    ensures Or(Shl(a, k) + b, Shl(c, k) + d) == Shl(Or(a, c), k) + Or(b, d)
    decreases k
  {
    ShlNat(a, k);
    ShlNat(c, k);
    if k != 0 {
      OrSplit(k - 1, a, b / 2, c, d / 2);
      OrSplitStep(k, a, b, c, d);
    }
  }

  /** The word of w bits with the low k bits clear. */
  lemma NotLow(w: nat, k: nat)
    requires k <= w
    ensures Pow2(k) - 1 < Pow2(w) && Not(w, Pow2(k) - 1) == Shl(Pow2(w - k) - 1, k)
  {
    Pow2Mono(k, w);
    ShlShl(1, w - k, k);
    ShlAdd(Pow2(w - k), 1, k);
  }

  lemma ShrBelow(w: nat, k: nat, x: nat)
    requires k <= w && x < Pow2(w)
    ensures Shr(x, k) < Pow2(w - k)
  {
    ShrBounds(x, k);
    ShlShl(1, w - k, k);
    ShlMono(Shr(x, k), Pow2(w - k), k);
  }

  /** `x & ~(2^k - 1)` on words of w bits clears the low k bits. */
  lemma ClearLow(w: nat, k: nat, x: nat)
    requires k <= w && x < Pow2(w)
    ensures Pow2(k) - 1 < Pow2(w)
    ensures And(x, Not(w, Pow2(k) - 1)) == x - Low(x, k)
  {
    NotLow(w, k);
    ShrBelow(w, k, x);
    AndSplit(k, Shr(x, k), Low(x, k), Pow2(w - k) - 1, 0);
    AndOnes(w - k, Shr(x, k));
  }

  ghost predicate IsPow2(n: nat) {
    exists k: nat :: n == Pow2(k)
  }

  lemma {:induction false} AndSelf(n: nat)
    ensures And(n, n) == n
  {
    if n != 0 {
      AndSelf(n / 2);
    }
  }

  /** The C idiom `n & (n - 1)`: zero exactly for powers of two (n > 0). */
  lemma {:induction false} PowerOfTwoTest(n: nat)
    requires n > 0
    ensures And(n, n - 1) == 0 <==> IsPow2(n)
  {
    AndStep(n, n - 1);
    if n == 1 {
      assert n == Pow2(0);
    } else if n % 2 == 1 {
      assert n / 2 == (n - 1) / 2;
      AndSelf(n / 2);
      forall k: nat ensures n != Pow2(k) {
        assert k == 0 || Pow2(k) == 2 * Pow2(k - 1);
      }
    } else {
      assert (n - 1) / 2 == n / 2 - 1;
      PowerOfTwoTest(n / 2);
      if IsPow2(n / 2) {
        var k: nat :| n / 2 == Pow2(k);
        assert n == Pow2(k + 1);
      }
      if IsPow2(n) {
        var k: nat :| n == Pow2(k);
        assert k == 0 || n / 2 == Pow2(k - 1);
      }
    }
  }
}
