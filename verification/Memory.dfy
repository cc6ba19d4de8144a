/** Memory as bytes at addresses, and words stored in it. */
module Memory {
  import opened Binary

  /** Bytes by address; an address never written holds 0. */
  type Bytewise = map<nat, nat>

  function At(m: Bytewise, i: nat): (b: nat) {
    if i in m then m[i] else 0
  }

  function Read(m: Bytewise, a: nat, n: nat): (s: seq<nat>)
    ensures |s| == n && forall i: nat | i < n :: s[i] == At(m, a + i)
    decreases n, a
  {
    if n == 0 then [] else [At(m, a)] + Read(m, a + 1, n - 1)
  }

  function Write(m: Bytewise, a: nat, s: seq<nat>): (m': Bytewise)
    ensures forall i: nat :: At(m', i) == if a <= i < a + |s| then s[i - a] else At(m, i)
    decreases |s|
  {
    if s == [] then m else Write(m[a := s[0]], a + 1, s[1..])
  }

  lemma ReadBack(m: Bytewise, m': Bytewise, a: nat, s: seq<nat>)
    requires forall i: nat | a <= i < a + |s| :: At(m', i) == At(Write(m, a, s), i)
    ensures Read(m', a, |s|) == s
  {
  }

  /** The n little-endian bytes of a word. */
  function Bytes(v: nat, n: nat): (s: seq<nat>)
    ensures |s| == n
  {
    if n == 0 then [] else [v % 256] + Bytes(v / 256, n - 1)
  }

  /** The n-byte little-endian word at address a. */
  function Load(m: Bytewise, a: nat, n: nat): nat
    decreases n, a
  {
    if n == 0 then 0 else At(m, a) + 256 * Load(m, a + 1, n - 1)
  }

  lemma {:induction false} LoadStored(m: Bytewise, a: nat, v: nat, n: nat)
    requires v < Pow2(8 * n)
    requires forall i: nat | a <= i < a + n :: At(m, i) == Bytes(v, n)[i - a]
    ensures Load(m, a, n) == v
    decreases n
  {
    if n != 0 {
      ShlShl(1, 8 * (n - 1), 8);
      Times256(Pow2(8 * (n - 1)));
      assert Bytes(v, n)[1..] == Bytes(v / 256, n - 1);
      LoadStored(m, a + 1, v / 256, n - 1);
    }
  }

  /** A write elsewhere leaves a word alone. */
  lemma {:induction false} LoadUntouched(m: Bytewise, m': Bytewise, a: nat, n: nat)
    requires forall i: nat | a <= i < a + n :: At(m', i) == At(m, i)
    ensures Load(m', a, n) == Load(m, a, n)
    decreases n
  {
    if n != 0 {
      LoadUntouched(m, m', a + 1, n - 1);
    }
  }

  /** A write inside a word changes it. */
  lemma {:induction false} LoadChanged(m: Bytewise, m': Bytewise, a: nat, n: nat, i: nat)
    requires a <= i < a + n && At(m', i) != At(m, i)
    requires forall j: nat | a <= j < a + n && j != i :: At(m', j) == At(m, j)
    ensures Load(m', a, n) != Load(m, a, n)
    decreases n
  {
    if i == a {
      LoadUntouched(m, m', a + 1, n - 1);
    } else {
      LoadChanged(m, m', a + 1, n - 1, i);
    }
  }

  /** Four bytes, the lowest first. */
  lemma LoadFour(m: Bytewise, a: nat)
    ensures Load(m, a, 4) == At(m, a) + 0x100 * At(m, a + 1) + 0x1_0000 * At(m, a + 2) + 0x100_0000 * At(m, a + 3)
  {
    assert Load(m, a + 4, 0) == 0;
    assert Load(m, a + 3, 1) == At(m, a + 3);
    assert Load(m, a + 2, 2) == At(m, a + 2) + 256 * Load(m, a + 3, 1);
    assert Load(m, a + 1, 3) == At(m, a + 1) + 256 * Load(m, a + 2, 2);
  }
}
