/** The va_list macros of tccdefs.h for Win64, i386, ARM and RISC-V: a pointer that each
    va_arg advances with mask arithmetic over the slots in which the caller put the arguments. */
module VarArgs {
  import opened Binary
  import opened Memory

  // ---- aligned addresses ----

  /** The least multiple of 2^k not below x. */
  function RoundUp(x: nat, k: nat): nat {
    ShlNat(Shr(x + Pow2(k) - 1, k), k);
    Shl(Shr(x + Pow2(k) - 1, k), k)
  }

  ghost predicate IsMultiple(x: nat, k: nat) {
    Low(x, k) == 0
  }

  lemma RoundUpIsLeast(x: nat, k: nat, y: nat)
    ensures IsMultiple(RoundUp(x, k), k) && x <= RoundUp(x, k) < x + Pow2(k)
    ensures IsMultiple(y, k) && y >= x ==> RoundUp(x, k) <= y
  {
    var n := x + Pow2(k) - 1;
    ShrBounds(n, k);
    ShlAdd(Shr(n, k), 1, k);
    LowUnique(RoundUp(x, k), k, Shr(n, k), 0);
    if IsMultiple(y, k) && y >= x {
      ShlAdd(Shr(y, k), 1, k);
      ShlMono(Shr(n, k), Shr(y, k) + 1, k);
      ShlMono(Shr(n, k), Shr(y, k), k);
    }
  }

  /** A multiple of a larger power of two is one of a smaller. */
  lemma MultipleOfLess(x: nat, k: nat, j: nat)
    requires j <= k && IsMultiple(x, k)
    ensures IsMultiple(x, j)
  {
    ShlNat(Shr(x, k), k - j);
    ShlShl(Shr(x, k), k - j, j);
    LowUnique(x, j, Shl(Shr(x, k), k - j), 0);
  }

  /** Rounding up commutes with adding a multiple. */
  lemma RoundUpShifts(a: nat, s: nat, k: nat)
    requires IsMultiple(a, k)
    ensures RoundUp(a + s, k) == a + RoundUp(s, k)
    ensures IsMultiple(a + RoundUp(s, k), k)
  {
    var q, n := Shr(a, k), s + Pow2(k) - 1;
    ShlAdd(q, Shr(n, k), k);
    LowUnique(a + n, k, q + Shr(n, k), Low(n, k));
    RoundUpIsLeast(a + s, k, 0);
  }

  /** The C idiom `(x + m - 1) & ~(m - 1)` on words of w bits, m == 2^k. */
  function AlignMask(w: nat, x: nat, k: nat): nat
    requires k <= w
  {
    Pow2Mono(k, w);
    And(x + Pow2(k) - 1, Not(w, Pow2(k) - 1))
  }

  lemma AlignMaskRoundsUp(w: nat, x: nat, k: nat)
    requires k <= w && x + Pow2(k) - 1 < Pow2(w)
    ensures AlignMask(w, x, k) == RoundUp(x, k)
  {
    ClearLow(w, k, x + Pow2(k) - 1);
  }

  /** `_tcc_align`, and `(x + slot - 1) & ~(slot - 1)` */
  method AlignUp(w: nat, x: nat, k: nat) returns (r: nat)
    requires k <= w && x + Pow2(k) - 1 < Pow2(w)
    ensures r == RoundUp(x, k)
  {
    AlignMaskRoundsUp(w, x, k);
    r := AlignMask(w, x, k);
  }

  // ---- calling conventions ----

  datatype Abi = Win64 | I386 | Arm | RiscV32 | RiscV64

  /** log2 of the slot size: `__va_reg_size` on RISC-V. */
  function SlotLog(abi: Abi): nat {
    if abi.Win64? || abi.RiscV64? then 3 else 2
  }

  function SlotSize(abi: Abi): nat {
    if abi.Win64? || abi.RiscV64? then 8 else 4
  }

  /** Bits in an address. */
  function AddressBits(abi: Abi): nat {
    8 * SlotSize(abi)
  }

  /** A C type: its size, and its alignment 2^alignLog. */
  datatype CType = CType(size: nat, alignLog: nat)

  /** Passed by reference: the slot holds a pointer to the value. */
  predicate ByReference(abi: Abi, t: CType) {
    match abi
    case Win64 => t.size > 8 || And(t.size, if t.size == 0 then Pow2(64) - 1 else t.size - 1) != 0
    case RiscV32 => t.size > 8
    case RiscV64 => t.size > 16
    case _ => false
  }

  /** On Win64 exactly the types of a nonzero size other than 1, 2, 4 and 8. */
  lemma Win64ByReference(t: CType)
    ensures ByReference(Win64, t) <==> t.size != 0 && t.size !in {1, 2, 4, 8}
  {
    if 0 < t.size <= 8 {
      PowerOfTwoTest(t.size);
      assert Pow2(0) == 1 && Pow2(1) == 2 && Pow2(2) == 4 && Pow2(3) == 8;
      if IsPow2(t.size) {
        var k: nat :| t.size == Pow2(k);
        if k > 3 {
          Pow2Mono(4, k);
        }
      }
    }
  }

  /** Where the next argument's slot starts when the slots before it end at ap. */
  function SlotAddress(abi: Abi, ap: nat, t: CType): nat {
    if abi.Win64? || abi.I386? || ByReference(abi, t) then ap else RoundUp(ap, t.alignLog)
  }

  /** How much of the argument area the argument takes. */
  function SlotLength(abi: Abi, t: CType): nat {
    if abi.Win64? || ByReference(abi, t) then SlotSize(abi) else RoundUp(t.size, SlotLog(abi))
  }

  function NextSlot(abi: Abi, ap: nat, t: CType): nat {
    SlotAddress(abi, ap, t) + SlotLength(abi, t)
  }

  /** Where the slots for arguments of the given types end. */
  function AreaEnd(abi: Abi, ap: nat, ts: seq<CType>): nat
    decreases |ts|
  {
    if ts == [] then ap else AreaEnd(abi, NextSlot(abi, ap, ts[0]), ts[1..])
  }

  lemma SlotSizeIsMultiple(abi: Abi)
    ensures SlotSize(abi) == Pow2(SlotLog(abi))
    ensures RoundUp(SlotSize(abi), SlotLog(abi)) == SlotSize(abi)
  {
    var k := SlotLog(abi);
    assert Pow2(2) == 4 && Pow2(3) == 8;
    LowUnique(Pow2(k), k, 1, 0);
    RoundUpIsLeast(Pow2(k), k, Pow2(k));
  }

  /** Rounding a multiple of 2^j up to a multiple of 2^k gives a multiple of both. */
  lemma RoundUpKeepsMultiple(x: nat, k: nat, j: nat)
    requires IsMultiple(x, j)
    ensures IsMultiple(RoundUp(x, k), j)
  {
    RoundUpIsLeast(x, k, x);
    if k >= j {
      MultipleOfLess(RoundUp(x, k), k, j);
    } else {
      MultipleOfLess(x, j, k);
    }
  }

  lemma SlotLengths(abi: Abi, t: CType)
    ensures SlotLength(abi, t) >= if ByReference(abi, t) then SlotSize(abi) else t.size
    ensures SlotLength(abi, t) == RoundUp(SlotLength(abi, t), SlotLog(abi))
  {
    SlotSizeIsMultiple(abi);
    RoundUpIsLeast(t.size, SlotLog(abi), 0);
    RoundUpIsLeast(RoundUp(t.size, SlotLog(abi)), SlotLog(abi), RoundUp(t.size, SlotLog(abi)));
    if abi.Win64? {
      Win64ByReference(t);
    }
  }

  /** Slots start on slot boundaries and at the least address that the type allows there; they
      hold the value or pointer, follow each other, and leave the pointer on a slot boundary. */
  lemma SlotsAreLeast(abi: Abi, ap: nat, t: CType, y: nat)
    requires IsMultiple(ap, SlotLog(abi))
    ensures var a := SlotAddress(abi, ap, t);
      && ap <= a && IsMultiple(a, SlotLog(abi))
      && ((abi.Arm? || abi.RiscV32? || abi.RiscV64?) && !ByReference(abi, t) ==>
            IsMultiple(a, t.alignLog) && (ap <= y && IsMultiple(y, t.alignLog) ==> a <= y))
    ensures IsMultiple(NextSlot(abi, ap, t), SlotLog(abi))
    ensures SlotLength(abi, t) >= if ByReference(abi, t) then SlotSize(abi) else t.size
  {
    RoundUpIsLeast(ap, t.alignLog, y);
    RoundUpKeepsMultiple(ap, t.alignLog, SlotLog(abi));
    SlotLengths(abi, t);
    RoundUpShifts(SlotAddress(abi, ap, t), SlotLength(abi, t), SlotLog(abi));
  }

  // ---- the same in numbers ----

  lemma Quarters(x: nat)
    ensures Shr(x, 2) == x / 4 && Shl(x, 2) == 4 * x
  {
    assert Shr(x, 0) == x && Shl(x, 0) == x;
    assert Shr(x, 1) == x / 2 && Shl(x, 1) == 2 * x;
    assert Shr(x, 2) == x / 2 / 2 && Shl(x, 2) == 2 * (2 * x);
  }

  lemma Eighths(x: nat)
    ensures Shr(x, 3) == x / 8 && Shl(x, 3) == 8 * x
  {
    Quarters(x);
    assert Shr(x, 3) == x / 4 / 2 && Shl(x, 3) == 2 * (4 * x);
  }

  lemma RoundUpToFour(x: nat)
    ensures RoundUp(x, 2) == (x + 3) / 4 * 4
  {
    Quarters(1);
    Quarters(x + 3);
    Quarters((x + 3) / 4);
  }

  lemma RoundUpToEight(x: nat)
    ensures RoundUp(x, 3) == (x + 7) / 8 * 8
  {
    Eighths(1);
    Eighths(x + 7);
    Eighths((x + 7) / 8);
  }

  lemma ProductBeyond(p: nat, d: int)
    requires d >= 1
    ensures p * d >= p
  {
  }

  lemma RemainderIs(x: nat, q: nat, p: nat, r: nat)
    requires x == q * p + r && r < p
    ensures x % p == r
  {
    if x / p > q {
      ProductBeyond(p, x / p - q);
    } else if x / p < q {
      ProductBeyond(p, q - x / p);
    }
  }

  /** IsMultiple means divisible. */
  lemma MultipleMeans(x: nat, k: nat)
    ensures IsMultiple(x, k) <==> x % Pow2(k) == 0
  {
    ShlIsMul(Shr(x, k), k);
    RemainderIs(x, Shr(x, k), Pow2(k), Low(x, k));
  }

  /** Slots of each convention: 8 bytes on Win64 whatever the type is, sizes rounded to 4 on i386, and
      on ARM and RISC-V from the least aligned address on. */
  lemma SlotNumbers(abi: Abi, ap: nat, t: CType)
    ensures abi.Win64? ==> SlotAddress(abi, ap, t) == ap && SlotLength(abi, t) == 8
    ensures abi.I386? ==> SlotAddress(abi, ap, t) == ap && SlotLength(abi, t) == (t.size + 3) / 4 * 4
    ensures abi.Arm? ==>
      SlotAddress(abi, ap, t) == RoundUp(ap, t.alignLog) && SlotLength(abi, t) == (t.size + 3) / 4 * 4
    ensures abi.RiscV32? && t.size > 8 ==> SlotAddress(abi, ap, t) == ap && SlotLength(abi, t) == 4
    ensures abi.RiscV32? && t.size <= 8 ==>
      SlotAddress(abi, ap, t) == RoundUp(ap, t.alignLog) && SlotLength(abi, t) == (t.size + 3) / 4 * 4
    ensures abi.RiscV64? && t.size > 16 ==> SlotAddress(abi, ap, t) == ap && SlotLength(abi, t) == 8
    ensures abi.RiscV64? && t.size <= 16 ==>
      SlotAddress(abi, ap, t) == RoundUp(ap, t.alignLog) && SlotLength(abi, t) == (t.size + 7) / 8 * 8
  {
    RoundUpToFour(t.size);
    RoundUpToEight(t.size);
  }

  lemma AlignedNumbers(abi: Abi, ap: nat, t: CType) returns (r: nat)
    requires !abi.Win64? && !abi.I386? && !ByReference(abi, t)
    ensures r == if abi.RiscV64? then (t.size + 7) / 8 * 8 else (t.size + 3) / 4 * 4
    ensures SlotLength(abi, t) == RoundUp(t.size, SlotLog(abi)) == r
    ensures NextSlot(abi, ap, t) == RoundUp(ap, t.alignLog) + r
  {
    SlotNumbers(abi, ap, t);
    r := SlotLength(abi, t);
  }

  // ---- the walk ----

  /** The pointer stored at address a. */
  function PointerAt(abi: Abi, m: Bytewise, a: nat): nat {
    Load(m, a, SlotSize(abi))
  }

  /** The bytes of the value of type t whose slot follows ap. */
  function ValueAfter(abi: Abi, m: Bytewise, ap: nat, t: CType): seq<nat> {
    var a := SlotAddress(abi, ap, t);
    Read(m, if ByReference(abi, t) then PointerAt(abi, m, a) else a, t.size)
  }

  function ValuesAfter(abi: Abi, m: Bytewise, ap: nat, ts: seq<CType>): seq<seq<nat>>
    decreases |ts|
  {
    if ts == [] then []
    else [ValueAfter(abi, m, ap, ts[0])] + ValuesAfter(abi, m, NextSlot(abi, ap, ts[0]), ts[1..])
  }

  /** No mask operation on the way to the next slot leaves the address space. */
  predicate Fits(abi: Abi, ap: nat, t: CType) {
    && t.alignLog <= AddressBits(abi)
    && ap + Pow2(t.alignLog) + t.size + 16 < Pow2(AddressBits(abi))
  }

  predicate AllFit(abi: Abi, ap: nat, ts: seq<CType>)
    decreases |ts|
  {
    ts != [] ==> Fits(abi, ap, ts[0]) && AllFit(abi, NextSlot(abi, ap, ts[0]), ts[1..])
  }

  /** What the masks of ARM and RISC-V find when the pointer is on a slot boundary: the value is
      read at exactly the aligned address. */
  lemma ArgumentFits(abi: Abi, ap: nat, t: CType)
    requires !abi.Win64? && !abi.I386? && !ByReference(abi, t)
    requires IsMultiple(ap, SlotLog(abi)) && Fits(abi, ap, t)
    ensures SlotLog(abi) <= AddressBits(abi) && SlotSize(abi) == Pow2(SlotLog(abi)) <= 8
    ensures RoundUp(ap, t.alignLog) == SlotAddress(abi, ap, t) < ap + Pow2(t.alignLog)
    ensures RoundUp(SlotAddress(abi, ap, t) + t.size, SlotLog(abi)) == NextSlot(abi, ap, t)
  {
    SlotSizeIsMultiple(abi);
    SlotsAreLeast(abi, ap, t, 0);
    RoundUpIsLeast(ap, t.alignLog, 0);
    RoundUpShifts(SlotAddress(abi, ap, t), t.size, SlotLog(abi));
  }

  // ---- what the caller stores is what the walk reads ----

  /** An argument; where its copy is, if it is passed by reference. */
  datatype Argument = Argument(t: CType, bytes: seq<nat>, copy: nat)

  function Types(args: seq<Argument>): (ts: seq<CType>)
    ensures |ts| == |args| && forall k: nat | k < |args| :: ts[k] == args[k].t
  {
    if args == [] then [] else [args[0].t] + Types(args[1..])
  }

  function Values(args: seq<Argument>): (values: seq<seq<nat>>)
    ensures |values| == |args| && forall k: nat | k < |args| :: values[k] == args[k].bytes
  {
    if args == [] then [] else [args[0].bytes] + Values(args[1..])
  }

  /** The caller puts each argument into its slot, or a copy elsewhere and its address into the slot. */
  function PassOne(abi: Abi, m: Bytewise, ap: nat, g: Argument): Bytewise {
    var a := SlotAddress(abi, ap, g.t);
    if ByReference(abi, g.t) then Write(Write(m, a, Bytes(g.copy, SlotSize(abi))), g.copy, g.bytes)
    else Write(m, a, g.bytes)
  }

  function Pass(abi: Abi, m: Bytewise, ap: nat, args: seq<Argument>): Bytewise
    decreases |args|
  {
    if args == [] then m
    else Pass(abi, PassOne(abi, m, ap, args[0]), NextSlot(abi, ap, args[0].t), args[1..])
  }

  /** No copy has bytes at the addresses from lo up to hi. */
  ghost predicate CopiesAvoid(abi: Abi, args: seq<Argument>, lo: nat, hi: nat)
    decreases |args|
  {
    args != [] ==>
      && (ByReference(abi, args[0].t) ==> args[0].copy + |args[0].bytes| <= lo || hi <= args[0].copy)
      && CopiesAvoid(abi, args[1..], lo, hi)
  }

  /** Values have the size of their type, and the copies are anywhere in the address space, but
      apart from each other. */
  ghost predicate Placed(abi: Abi, args: seq<Argument>)
    decreases |args|
  {
    args != [] ==>
      && var g := args[0];
      && |g.bytes| == g.t.size && g.copy < Pow2(AddressBits(abi))
      && (ByReference(abi, g.t) ==> CopiesAvoid(abi, args[1..], g.copy, g.copy + |g.bytes|))
      && Placed(abi, args[1..])
  }

  /** The copies are apart from the argument area, too. */
  ghost predicate Passable(abi: Abi, ap: nat, args: seq<Argument>) {
    && IsMultiple(ap, SlotLog(abi)) && Placed(abi, args)
    && CopiesAvoid(abi, args, ap, AreaEnd(abi, ap, Types(args)))
  }

  lemma {:induction false} AvoidSmaller(abi: Abi, args: seq<Argument>, lo: nat, hi: nat, lo': nat, hi': nat)
    requires CopiesAvoid(abi, args, lo, hi) && lo <= lo' && hi' <= hi
    ensures CopiesAvoid(abi, args, lo', hi')
    decreases |args|
  {
    if args != [] {
      AvoidSmaller(abi, args[1..], lo, hi, lo', hi');
    }
  }

  lemma {:induction false} AreaEndGrows(abi: Abi, ap: nat, ts: seq<CType>)
    requires IsMultiple(ap, SlotLog(abi))
    ensures ap <= AreaEnd(abi, ap, ts) && IsMultiple(AreaEnd(abi, ap, ts), SlotLog(abi))
    decreases |ts|
  {
    if ts != [] {
      SlotsAreLeast(abi, ap, ts[0], 0);
      AreaEndGrows(abi, NextSlot(abi, ap, ts[0]), ts[1..]);
    }
  }

  /** What holds of a list of arguments holds of the rest of it behind the first slot. */
  lemma PassableTail(abi: Abi, ap: nat, args: seq<Argument>)
    requires Passable(abi, ap, args) && args != []
    ensures var next := NextSlot(abi, ap, args[0].t);
      && ap <= SlotAddress(abi, ap, args[0].t) && next <= AreaEnd(abi, next, Types(args[1..]))
      && AreaEnd(abi, ap, Types(args)) == AreaEnd(abi, next, Types(args[1..]))
      && Passable(abi, next, args[1..])
      && CopiesAvoid(abi, args[1..], ap, next)
  {
    var next, end := NextSlot(abi, ap, args[0].t), AreaEnd(abi, ap, Types(args));
    SlotsAreLeast(abi, ap, args[0].t, 0);
    assert Types(args)[1..] == Types(args[1..]);
    AreaEndGrows(abi, next, Types(args[1..]));
    AvoidSmaller(abi, args[1..], ap, end, next, end);
    AvoidSmaller(abi, args[1..], ap, end, ap, next);
  }

  /** One argument is stored inside its slot and its copy. */
  lemma PassOneFrame(abi: Abi, m: Bytewise, ap: nat, g: Argument, i: nat)
    requires IsMultiple(ap, SlotLog(abi)) && |g.bytes| == g.t.size
    requires i < ap || NextSlot(abi, ap, g.t) <= i
    requires ByReference(abi, g.t) ==> i < g.copy || g.copy + |g.bytes| <= i
    ensures At(PassOne(abi, m, ap, g), i) == At(m, i)
  {
    SlotsAreLeast(abi, ap, g.t, 0);
  }

  /** Passing arguments changes nothing but their slots and copies. */
  lemma {:induction false} PassFrame(abi: Abi, m: Bytewise, ap: nat, args: seq<Argument>, i: nat)
    requires Passable(abi, ap, args)
    requires i < ap || AreaEnd(abi, ap, Types(args)) <= i
    requires CopiesAvoid(abi, args, i, i + 1)
    ensures At(Pass(abi, m, ap, args), i) == At(m, i)
    decreases |args|
  {
    if args != [] {
      PassableTail(abi, ap, args);
      PassOneFrame(abi, m, ap, args[0], i);
      PassFrame(abi, PassOne(abi, m, ap, args[0]), NextSlot(abi, ap, args[0].t), args[1..], i);
    }
  }

  /** A slot with the address of a copy elsewhere leads to the copy. */
  lemma ReferenceReadBack(m: Bytewise, m': Bytewise, a: nat, n: nat, cp: nat, bytes: seq<nat>)
    requires cp < Pow2(8 * n) && (a + n <= cp || cp + |bytes| <= a)
    requires forall i: nat | a <= i < a + n || cp <= i < cp + |bytes| ::
               At(m', i) == At(Write(Write(m, a, Bytes(cp, n)), cp, bytes), i)
    ensures Load(m', a, n) == cp && Read(m', cp, |bytes|) == bytes
  {
    LoadStored(m', a, cp, n);
    ReadBack(Write(m, a, Bytes(cp, n)), m', cp, bytes);
  }

  /** A memory that agrees with PassOne on slot and copy gives the argument back. */
  lemma PassOneReadBack(abi: Abi, m: Bytewise, m': Bytewise, ap: nat, g: Argument)
    requires IsMultiple(ap, SlotLog(abi)) && |g.bytes| == g.t.size && g.copy < Pow2(AddressBits(abi))
    requires ByReference(abi, g.t) ==> g.copy + |g.bytes| <= ap || NextSlot(abi, ap, g.t) <= g.copy
    requires forall i: nat | ap <= i < NextSlot(abi, ap, g.t) ||
                             (ByReference(abi, g.t) && g.copy <= i < g.copy + |g.bytes|) ::
               At(m', i) == At(PassOne(abi, m, ap, g), i)
    ensures ValueAfter(abi, m', ap, g.t) == g.bytes
  {
    var a := SlotAddress(abi, ap, g.t);
    SlotsAreLeast(abi, ap, g.t, 0);
    if ByReference(abi, g.t) {
      ReferenceReadBack(m, m', a, SlotSize(abi), g.copy, g.bytes);
    } else {
      ReadBack(m, m', a, g.bytes);
    }
  }

  /** The remaining arguments have no bytes in the first slot and copy. */
  lemma RestAvoids(abi: Abi, ap: nat, args: seq<Argument>, i: nat)
    requires Passable(abi, ap, args) && args != []
    requires ap <= i < NextSlot(abi, ap, args[0].t) ||
             (ByReference(abi, args[0].t) && args[0].copy <= i < args[0].copy + |args[0].bytes|)
    ensures CopiesAvoid(abi, args[1..], i, i + 1)
    ensures i < NextSlot(abi, ap, args[0].t) || AreaEnd(abi, ap, Types(args)) <= i
  {
    var g, next := args[0], NextSlot(abi, ap, args[0].t);
    PassableTail(abi, ap, args);
    if ap <= i < next {
      AvoidSmaller(abi, args[1..], ap, next, i, i + 1);
    } else {
      AvoidSmaller(abi, args[1..], g.copy, g.copy + |g.bytes|, i, i + 1);
    }
  }

  /** So passing them leaves slot and copy alone. */
  lemma FirstArgumentStays(abi: Abi, m: Bytewise, ap: nat, args: seq<Argument>, i: nat)
    requires Passable(abi, ap, args) && args != []
    requires ap <= i < NextSlot(abi, ap, args[0].t) ||
             (ByReference(abi, args[0].t) && args[0].copy <= i < args[0].copy + |args[0].bytes|)
    ensures At(Pass(abi, m, ap, args), i) == At(PassOne(abi, m, ap, args[0]), i)
  {
    RestAvoids(abi, ap, args, i);
    PassableTail(abi, ap, args);
    PassFrame(abi, PassOne(abi, m, ap, args[0]), NextSlot(abi, ap, args[0].t), args[1..], i);
  }

  /** Walking over the argument area with the types of the arguments returns the arguments,
      for every list, each of the conventions, and wherever the copies are. */
  lemma {:induction false} WalkReturnsArguments(abi: Abi, m: Bytewise, ap: nat, args: seq<Argument>)
    requires Passable(abi, ap, args)
    ensures ValuesAfter(abi, Pass(abi, m, ap, args), ap, Types(args)) == Values(args)
    decreases |args|
  {
    if args != [] {
      var g, next := args[0], NextSlot(abi, ap, args[0].t);
      forall i: nat | ap <= i < next || (ByReference(abi, g.t) && g.copy <= i < g.copy + |g.bytes|)
        ensures At(Pass(abi, m, ap, args), i) == At(PassOne(abi, m, ap, g), i)
      {
        FirstArgumentStays(abi, m, ap, args, i);
      }
      PassableTail(abi, ap, args);
      PassOneReadBack(abi, m, Pass(abi, m, ap, args), ap, g);
      assert Types(args)[1..] == Types(args[1..]);
      WalkReturnsArguments(abi, PassOne(abi, m, ap, g), next, args[1..]);
    }
  }

  // ---- where the k-th argument is ----

  /** The list pointer before the k-th argument. */
  function Pointer(abi: Abi, ap: nat, ts: seq<CType>, k: nat): nat
    requires k <= |ts|
    decreases k
  {
    if k == 0 then ap else NextSlot(abi, Pointer(abi, ap, ts, k - 1), ts[k - 1])
  }

  lemma {:induction false} PointerOfTail(abi: Abi, ap: nat, ts: seq<CType>, k: nat)
    requires 0 < k <= |ts|
    ensures Pointer(abi, ap, ts, k) == Pointer(abi, NextSlot(abi, ap, ts[0]), ts[1..], k - 1)
    decreases k
  {
    if k > 1 {
      PointerOfTail(abi, ap, ts, k - 1);
    }
  }

  lemma {:induction false} PointerIsWalked(abi: Abi, ap: nat, ts: seq<CType>, k: nat)
    requires k <= |ts|
    ensures Pointer(abi, ap, ts, k) == AreaEnd(abi, ap, ts[..k])
    decreases k
  {
    if k != 0 {
      var next := NextSlot(abi, ap, ts[0]);
      PointerIsWalked(abi, next, ts[1..], k - 1);
      PointerOfTail(abi, ap, ts, k);
      assert ts[..k][1..] == ts[1..][..k - 1];
    }
  }

  /** A walk over a list reads the k-th value at the k-th pointer. */
  lemma {:induction false} ValueOfWalk(abi: Abi, m: Bytewise, ap: nat, ts: seq<CType>, k: nat)
    requires k < |ts|
    ensures |ValuesAfter(abi, m, ap, ts)| == |ts|
    ensures ValuesAfter(abi, m, ap, ts)[k] == ValueAfter(abi, m, Pointer(abi, ap, ts, k), ts[k])
    decreases |ts|
  {
    var next := NextSlot(abi, ap, ts[0]);
    if |ts| > 1 {
      ValueOfWalk(abi, m, next, ts[1..], if k == 0 then 0 else k - 1);
    }
    if k > 0 {
      PointerOfTail(abi, ap, ts, k);
    }
  }

  /** Slots are disjoint and increasing, and every pointer is on a slot boundary. */
  lemma {:induction false} SlotsAreDisjoint(abi: Abi, ap: nat, ts: seq<CType>, j: nat, k: nat)
    requires IsMultiple(ap, SlotLog(abi)) && j <= k <= |ts|
    ensures IsMultiple(Pointer(abi, ap, ts, k), SlotLog(abi))
    ensures Pointer(abi, ap, ts, j) <= Pointer(abi, ap, ts, k)
    ensures j < k < |ts| ==>
      SlotAddress(abi, Pointer(abi, ap, ts, j), ts[j]) + SlotLength(abi, ts[j])
        <= SlotAddress(abi, Pointer(abi, ap, ts, k), ts[k])
    decreases k
  {
    if k > 0 {
      SlotsAreDisjoint(abi, ap, ts, if j < k then j else k - 1, k - 1);
      SlotsAreLeast(abi, Pointer(abi, ap, ts, k - 1), ts[k - 1], 0);
    }
    if k < |ts| {
      SlotsAreLeast(abi, Pointer(abi, ap, ts, k), ts[k], 0);
    }
  }

  function RoundedTotal(ts: seq<CType>, k: nat): nat
    requires k <= |ts|
  {
    if k == 0 then 0 else RoundedTotal(ts, k - 1) + (ts[k - 1].size + 3) / 4 * 4
  }

  /** On i386 the k-th argument is read at the start plus the sizes before it, rounded to 4. */
  lemma {:induction false} I386Offsets(ap: nat, ts: seq<CType>, k: nat)
    requires k <= |ts|
    ensures Pointer(I386, ap, ts, k) == ap + RoundedTotal(ts, k)
    ensures k < |ts| ==> SlotAddress(I386, Pointer(I386, ap, ts, k), ts[k]) == ap + RoundedTotal(ts, k)
    decreases k
  {
    if k != 0 {
      I386Offsets(ap, ts, k - 1);
      SlotNumbers(I386, Pointer(I386, ap, ts, k - 1), ts[k - 1]);
    }
  }

  /** On Win64 the k-th argument is in the k-th group of 8 bytes, whatever the types are. */
  lemma {:induction false} Win64Offsets(ap: nat, ts: seq<CType>, k: nat)
    requires k <= |ts|
    ensures Pointer(Win64, ap, ts, k) == ap + 8 * k
    ensures k < |ts| ==> SlotAddress(Win64, Pointer(Win64, ap, ts, k), ts[k]) == ap + 8 * k
    decreases k
  {
    if k != 0 {
      Win64Offsets(ap, ts, k - 1);
      SlotNumbers(Win64, Pointer(Win64, ap, ts, k - 1), ts[k - 1]);
    }
    if k < |ts| {
      SlotNumbers(Win64, Pointer(Win64, ap, ts, k), ts[k]);
    }
  }

  /** On ARM and RISC-V each pointer is in numbers of the one before it. */
  lemma AlignedOffsets(abi: Abi, ap: nat, ts: seq<CType>, k: nat)
    requires k < |ts| && (abi.Arm? || abi.RiscV32? || abi.RiscV64?)
    ensures var p, next := Pointer(abi, ap, ts, k), Pointer(abi, ap, ts, k + 1);
      && (abi.RiscV32? && ts[k].size > 8 ==> next == p + 4)
      && (abi.RiscV64? && ts[k].size > 16 ==> next == p + 8)
      && (abi.Arm? || (abi.RiscV32? && ts[k].size <= 8) ==>
            next == RoundUp(p, ts[k].alignLog) + (ts[k].size + 3) / 4 * 4)
      && (abi.RiscV64? && ts[k].size <= 16 ==> next == RoundUp(p, ts[k].alignLog) + (ts[k].size + 7) / 8 * 8)
  {
    SlotNumbers(abi, Pointer(abi, ap, ts, k), ts[k]);
  }

  /** All that va_arg needs on ARM and RISC-V: where the value is, and how far the pointer moves. */
  lemma AlignedArgument(abi: Abi, m: Bytewise, ap: nat, t: CType) returns (a: nat, r: nat)
    requires !abi.Win64? && !abi.I386? && !ByReference(abi, t)
    requires IsMultiple(ap, SlotLog(abi)) && Fits(abi, ap, t)
    ensures SlotLog(abi) <= AddressBits(abi) && ap + Pow2(t.alignLog) - 1 < Pow2(AddressBits(abi))
    ensures t.size + Pow2(SlotLog(abi)) - 1 <= a + t.size + Pow2(SlotLog(abi)) - 1 < Pow2(AddressBits(abi))
    ensures a == RoundUp(ap, t.alignLog) && r == RoundUp(t.size, SlotLog(abi))
    ensures r == if abi.RiscV64? then (t.size + 7) / 8 * 8 else (t.size + 3) / 4 * 4
    ensures RoundUp(a + t.size, SlotLog(abi)) == a + r == NextSlot(abi, ap, t)
    ensures ValueAfter(abi, m, ap, t) == Read(m, a, t.size)
  {
    r := AlignedNumbers(abi, ap, t);
    ArgumentFits(abi, ap, t);
    a := RoundUp(ap, t.alignLog);
  }

  // ---- the macros ----

  class VaList {
    const abi: Abi
    const mem: Bytewise
    var ap: nat

    /** __builtin_va_start on i386 and ARM: the slot after the one of the last named argument. */
    constructor (abi: Abi, mem: Bytewise, last: nat, t: CType)
      requires abi.I386? || abi.Arm?
      requires IsMultiple(last, 2) && last + t.size + 16 < Pow2(32)
      ensures this.abi == abi && this.mem == mem
      ensures ap == last + SlotLength(abi, t) && IsMultiple(ap, 2)
      ensures ap == last + (t.size + 3) / 4 * 4
    {
      RoundUpToFour(t.size);
      SlotSizeIsMultiple(abi);
      RoundUpShifts(last, t.size, 2);
      var r := AlignUp(32, t.size, 2);
      this.abi := abi;
      this.mem := mem;
      ap := last + r;
    }

    /** __builtin_va_arg on Win64 */
    method ArgWin64(t: CType) returns (value: seq<nat>)
      requires abi.Win64?
      modifies this
      ensures value == ValueAfter(abi, mem, old(ap), t) && ap == NextSlot(abi, old(ap), t)
      ensures ap == old(ap) + 8
      ensures t.size in {0, 1, 2, 4, 8} ==> value == Read(mem, old(ap), t.size)
      ensures t.size !in {0, 1, 2, 4, 8} ==> value == Read(mem, Load(mem, old(ap), 8), t.size)
    {
      Win64ByReference(t);
      ap := ap + 8;
      if t.size > 8 || And(t.size, if t.size == 0 then Pow2(64) - 1 else t.size - 1) != 0 {
        value := Read(mem, PointerAt(abi, mem, ap - 8), t.size);
      } else {
        value := Read(mem, ap - 8, t.size);
      }
    }

    /** __builtin_va_arg on i386 */
    method ArgI386(t: CType) returns (value: seq<nat>)
      requires abi.I386? && Fits(abi, ap, t)
      modifies this
      ensures value == ValueAfter(abi, mem, old(ap), t) && ap == NextSlot(abi, old(ap), t)
      ensures ap == old(ap) + (t.size + 3) / 4 * 4 && value == Read(mem, old(ap), t.size)
    {
      SlotNumbers(abi, ap, t);
      SlotSizeIsMultiple(abi);
      var r := AlignUp(AddressBits(abi), t.size, SlotLog(abi));
      ap := ap + r;
      value := Read(mem, ap - r, t.size);
    }

    /** __builtin_va_arg on ARM, and on RISC-V for what fits two registers. */
    method ArgAligned(t: CType) returns (value: seq<nat>)
      requires !abi.Win64? && !abi.I386? && !ByReference(abi, t)
      requires IsMultiple(ap, SlotLog(abi)) && Fits(abi, ap, t)
      modifies this
      ensures value == ValueAfter(abi, mem, old(ap), t) && ap == NextSlot(abi, old(ap), t)
      ensures value == Read(mem, RoundUp(old(ap), t.alignLog), t.size)
      ensures ap == RoundUp(old(ap), t.alignLog) + if abi.RiscV64? then (t.size + 7) / 8 * 8 else (t.size + 3) / 4 * 4
    {
      ghost var a', r' := AlignedArgument(abi, mem, ap, t);
      var a := AlignUp(AddressBits(abi), ap, t.alignLog);
      ap := AlignUp(AddressBits(abi), a + t.size, SlotLog(abi));
      var r := AlignUp(AddressBits(abi), t.size, SlotLog(abi));
      value := Read(mem, ap - r, t.size);
    }

    /** __builtin_va_arg on RISC-V */
    method ArgRiscV(t: CType) returns (value: seq<nat>)
      requires (abi.RiscV32? || abi.RiscV64?) && IsMultiple(ap, SlotLog(abi)) && Fits(abi, ap, t)
      modifies this
      ensures value == ValueAfter(abi, mem, old(ap), t) && ap == NextSlot(abi, old(ap), t)
      ensures abi.RiscV32? && t.size > 8 ==> ap == old(ap) + 4 && value == Read(mem, Load(mem, old(ap), 4), t.size)
      ensures abi.RiscV64? && t.size > 16 ==> ap == old(ap) + 8 && value == Read(mem, Load(mem, old(ap), 8), t.size)
      ensures abi.RiscV32? && t.size <= 8 ==>
        && ap == RoundUp(old(ap), t.alignLog) + (t.size + 3) / 4 * 4
        && value == Read(mem, RoundUp(old(ap), t.alignLog), t.size)
      ensures abi.RiscV64? && t.size <= 16 ==>
        && ap == RoundUp(old(ap), t.alignLog) + (t.size + 7) / 8 * 8
        && value == Read(mem, RoundUp(old(ap), t.alignLog), t.size)
    {
      var reg := SlotSize(abi);
      if t.size > 2 * reg {
        ap := ap + reg;
        value := Read(mem, PointerAt(abi, mem, ap - reg), t.size);
      } else {
        value := ArgAligned(t);
      }
    }

    /** __builtin_va_arg: the value is read from its slot, and the pointer moves to the next. */
    method Arg(t: CType) returns (value: seq<nat>)
      requires IsMultiple(ap, SlotLog(abi)) && Fits(abi, ap, t)
      modifies this
      ensures value == ValueAfter(abi, mem, old(ap), t)
      ensures ap == NextSlot(abi, old(ap), t) && IsMultiple(ap, SlotLog(abi))
    {
      SlotsAreLeast(abi, ap, t, 0);
      match abi
      case Win64 => value := ArgWin64(t);
      case I386 => value := ArgI386(t);
      case Arm => value := ArgAligned(t);
      case _ => value := ArgRiscV(t);
    }

    /** A walk over a whole list. */
    method Walk(ts: seq<CType>) returns (values: seq<seq<nat>>)
      requires IsMultiple(ap, SlotLog(abi)) && AllFit(abi, ap, ts)
      modifies this
      ensures values == ValuesAfter(abi, mem, old(ap), ts)
      ensures ap == AreaEnd(abi, old(ap), ts) && IsMultiple(ap, SlotLog(abi))
    {
      values := [];
      ghost var all, end := ValuesAfter(abi, mem, ap, ts), AreaEnd(abi, ap, ts);
      var rest := ts;
      while rest != []
        invariant IsMultiple(ap, SlotLog(abi)) && AllFit(abi, ap, rest)
        invariant values + ValuesAfter(abi, mem, ap, rest) == all
        invariant AreaEnd(abi, ap, rest) == end
        decreases |rest|
      {
        var v := Arg(rest[0]);
        values := values + [v];
        rest := rest[1..];
      }
    }

    /** A callee that knows the types reads what its caller passed. */
    method ReadArguments(ghost m: Bytewise, ghost args: seq<Argument>, ts: seq<CType>)
      returns (values: seq<seq<nat>>)
      requires ts == Types(args) && Passable(abi, ap, args) && AllFit(abi, ap, ts)
      requires mem == Pass(abi, m, ap, args)
      modifies this
      ensures values == Values(args)
      ensures ap == AreaEnd(abi, old(ap), ts)
    {
      WalkReturnsArguments(abi, m, ap, args);
      values := Walk(ts);
    }
  }
}
