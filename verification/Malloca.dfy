/** The _malloca / _freea protocol of malloc.h: small blocks live on the stack, large ones on
    the heap, and a marker in front of each block tells _freea which. */
module Malloca {
  import opened Binary
  import opened Memory

  const ALLOCA_S_THRESHOLD := 1024
  const ALLOCA_S_STACK_MARKER := 0xCCCC
  const ALLOCA_S_HEAP_MARKER := 0xDDDD

  datatype Target = X86 | X64

  /** _ALLOCA_S_MARKER_SIZE */
  function MarkerSize(t: Target): nat {
    if t.X86? then 8 else 16
  }

  /** One more than the greatest size_t. */
  function AddressSpace(t: Target): nat {
    if t.X86? then 0x1_0000_0000 else 0x1_0000_0000_0000_0000
  }

  /** C's + on addresses and on size_t, for one carry. */
  function Plus(t: Target, a: nat, b: nat): nat {
    if a + b < AddressSpace(t) then a + b else a + b - AddressSpace(t)
  }

  /** What _malloca asks for: `(size) + _ALLOCA_S_MARKER_SIZE` */
  function TotalSize(t: Target, size: nat): nat {
    Plus(t, size, MarkerSize(t))
  }

  /** The sum does not wrap. */
  predicate NoWrap(t: Target, size: nat) {
    size + MarkerSize(t) < AddressSpace(t)
  }

  // ---- the state ----

  datatype Place = Heap | Stack(depth: nat)

  /** A block as malloc or alloca handed it out. */
  datatype Block = Block(size: nat, place: Place)

  /** blocks: what is allocated, by base address; depth: of the current stack frame;
      mallocs, freed: the heap bases obtained and released so far; live: the blocks whose
      pointer, MarkerSize behind the base, _malloca returned and the client may still use. */
  datatype State = State(mem: Bytewise, blocks: map<nat, Block>, depth: nat,
                         mallocs: seq<nat>, freed: seq<nat>, live: set<nat>)

  /** `*(unsigned int *)base` */
  function Marker(m: Bytewise, base: nat): nat {
    Load(m, base, 4)
  }

  predicate Apart(b: nat, n: nat, c: nat, k: nat) {
    b + n <= c || c + k <= b
  }

  /** The promise of malloc and alloca: a nonzero address of memory not in use. The address behind
      the block is one too, as ISO/IEC 9899:1999 section 6.5.6 asks of every object. */
  predicate FreshFor(t: Target, blocks: map<nat, Block>, base: nat, n: nat) {
    && 0 < base && base + n < AddressSpace(t)
    && forall b | b in blocks :: Apart(base, n, b, blocks[b].size)
  }

  function MarkerFor(place: Place): nat {
    if place.Heap? then ALLOCA_S_HEAP_MARKER else ALLOCA_S_STACK_MARKER
  }

  /** Blocks have addresses and room for a marker, are apart, and those on the stack are in a frame. */
  ghost predicate BlocksValid(t: Target, blocks: map<nat, Block>, depth: nat) {
    && (forall b | b in blocks :: 0 < b && MarkerSize(t) <= blocks[b].size && b + blocks[b].size < AddressSpace(t))
    && (forall b | b in blocks :: blocks[b].place.Stack? ==> blocks[b].place.depth <= depth)
    && (forall b, c {:trigger Apart(b, blocks[b].size, c, blocks[c].size)} | b in blocks && c in blocks && b != c ::
          Apart(b, blocks[b].size, c, blocks[c].size))
  }

  /** Live blocks are allocated, and every heap block is live. */
  ghost predicate LiveValid(blocks: map<nat, Block>, live: set<nat>) {
    && (forall b | b in live :: b in blocks)
    && (forall b | b in blocks && blocks[b].place.Heap? :: b in live)
  }

  /** The marker at the base of a live block says where the block is. */
  ghost predicate MarkersValid(m: Bytewise, blocks: map<nat, Block>, live: set<nat>)
    requires LiveValid(blocks, live)
  {
    forall b | b in live :: Marker(m, b) == MarkerFor(blocks[b].place)
  }

  ghost predicate Valid(t: Target, s: State) {
    && BlocksValid(t, s.blocks, s.depth)
    && LiveValid(s.blocks, s.live)
    && MarkersValid(s.mem, s.blocks, s.live)
  }

  function HeapBases(s: State): set<nat> {
    set b | b in s.blocks && s.blocks[b].place.Heap?
  }

  /** Every heap block obtained has been released exactly once or is still there. */
  ghost predicate Balanced(s: State) {
    multiset(s.mallocs) == multiset(s.freed) + multiset(HeapBases(s))
  }

  const Start: State := State(map[], map[], 0, [], [], {})

  // ---- what can happen ----

  datatype Op =
    | Malloca(size: nat, answer: nat)   // answer: what malloc or alloca returns, 0 for NULL
    | Store(p: nat, offset: nat, byte: nat)
    | Freea(p: nat)
    | Enter
    | Leave

  /** What malloc or alloca may answer to a request for n bytes: NULL only from malloc. */
  predicate CanAnswer(t: Target, blocks: map<nat, Block>, n: nat, answer: nat) {
    if answer == 0 then n > ALLOCA_S_THRESHOLD else FreshFor(t, blocks, answer, n)
  }

  /** p is a pointer that the client may use: the one behind the marker of a live block. */
  predicate IsLive(t: Target, s: State, p: nat) {
    p >= MarkerSize(t) && p - MarkerSize(t) in s.live
  }

  /** What the client and the underlying allocators keep to: sizes do not wrap, alloca does not
      fail, writes stay inside live blocks, and only NULL or a live pointer is given back. */
  predicate Legal(t: Target, s: State, op: Op) {
    match op
    case Malloca(size, answer) => NoWrap(t, size) && CanAnswer(t, s.blocks, TotalSize(t, size), answer)
    case Store(p, offset, byte) =>
      && IsLive(t, s, p) && p - MarkerSize(t) in s.blocks
      && MarkerSize(t) + offset < s.blocks[p - MarkerSize(t)].size && byte < 256
    case Freea(p) => p == 0 || IsLive(t, s, p)
    case Enter => true
    case Leave => s.depth > 0
  }

  /** The stack blocks that vanish when the current frame is left. */
  function Popped(s: State): set<nat> {
    set b | b in s.blocks && s.blocks[b].place == Stack(s.depth)
  }

  /** _MarkAllocaS on a fresh block: the marker is stored, and the pointer behind it is live. */
  function Allocate(t: Target, s: State, base: nat, n: nat, place: Place): State {
    s.(mem := Write(s.mem, base, Bytes(MarkerFor(place), 4)),
       blocks := s.blocks[base := Block(n, place)],
       mallocs := if place.Heap? then s.mallocs + [base] else s.mallocs,
       live := s.live + {base})
  }

  function PlaceFor(s: State, n: nat): Place {
    if n <= ALLOCA_S_THRESHOLD then Stack(s.depth) else Heap
  }

  function MallocaStep(t: Target, s: State, n: nat, answer: nat): State {
    if answer == 0 then s else Allocate(t, s, answer, n, PlaceFor(s, n))
  }

  /** free */
  function Release(s: State, base: nat): State {
    s.(blocks := s.blocks - {base}, freed := s.freed + [base], live := s.live - {base})
  }

  function FreeaStep(t: Target, s: State, p: nat): State {
    if p < MarkerSize(t) then s
    else if Marker(s.mem, p - MarkerSize(t)) == ALLOCA_S_HEAP_MARKER then Release(s, p - MarkerSize(t))
    else s.(live := s.live - {p - MarkerSize(t)})
  }

  function LeaveStep(s: State): State {
    s.(blocks := s.blocks - Popped(s), live := s.live - Popped(s), depth := if s.depth > 0 then s.depth - 1 else 0)
  }

  function Step(t: Target, s: State, op: Op): State {
    match op
    case Malloca(size, answer) => MallocaStep(t, s, TotalSize(t, size), answer)
    case Store(p, offset, byte) => s.(mem := Write(s.mem, p + offset, [byte]))
    case Freea(p) => FreeaStep(t, s, p)
    case Enter => s.(depth := s.depth + 1)
    case Leave => LeaveStep(s)
  }

  // ---- what every step keeps ----

  lemma MarkerReadBack(m: Bytewise, base: nat, place: Place)
    ensures Marker(Write(m, base, Bytes(MarkerFor(place), 4)), base) == MarkerFor(place)
  {
    assert Pow2(8) == 256;
    Times256(Pow2(8));
    ShlShl(1, 8, 8);
    Pow2Mono(16, 32);
    LoadStored(Write(m, base, Bytes(MarkerFor(place), 4)), base, MarkerFor(place), 4);
  }

  /** A write outside the first four bytes of a block leaves its marker alone. */
  lemma MarkerUntouched(m: Bytewise, base: nat, a: nat, bytes: seq<nat>)
    requires Apart(base, 4, a, |bytes|)
    ensures Marker(Write(m, a, bytes), base) == Marker(m, base)
  {
    LoadUntouched(m, Write(m, a, bytes), base, 4);
  }

  lemma AllocateKeepsBlocks(t: Target, blocks: map<nat, Block>, depth: nat, base: nat, n: nat, place: Place)
    requires BlocksValid(t, blocks, depth) && FreshFor(t, blocks, base, n) && n >= MarkerSize(t)
    requires place.Stack? ==> place.depth <= depth
    ensures BlocksValid(t, blocks[base := Block(n, place)], depth)
    ensures base !in blocks
  {
  }

  lemma MarkersKept(t: Target, m: Bytewise, blocks: map<nat, Block>, live: set<nat>, a: nat, bytes: seq<nat>)
    requires LiveValid(blocks, live) && MarkersValid(m, blocks, live)
    requires forall b | b in live :: Apart(b, 4, a, |bytes|)
    ensures MarkersValid(Write(m, a, bytes), blocks, live)
  {
    forall b | b in live
      ensures Marker(Write(m, a, bytes), b) == Marker(m, b)
    {
      MarkerUntouched(m, b, a, bytes);
    }
  }

  lemma AllocateKeepsValid(t: Target, s: State, base: nat, n: nat, place: Place)
    requires Valid(t, s) && FreshFor(t, s.blocks, base, n) && n >= MarkerSize(t)
    requires place.Stack? ==> place.depth <= s.depth
    ensures Valid(t, Allocate(t, s, base, n, place))
    ensures base !in s.blocks
  {
    var bytes := Bytes(MarkerFor(place), 4);
    AllocateKeepsBlocks(t, s.blocks, s.depth, base, n, place);
    MarkerReadBack(s.mem, base, place);
    MarkersKept(t, s.mem, s.blocks, s.live, base, bytes);
  }

  lemma StoreKeepsValid(t: Target, s: State, p: nat, offset: nat, byte: nat)
    requires Valid(t, s) && Legal(t, s, Store(p, offset, byte))
    ensures Valid(t, s.(mem := Write(s.mem, p + offset, [byte])))
  {
    var c := p - MarkerSize(t);
    forall b | b in s.live
      ensures Apart(b, 4, p + offset, 1)
    {
      assert b != c ==> Apart(b, s.blocks[b].size, c, s.blocks[c].size);
    }
    MarkersKept(t, s.mem, s.blocks, s.live, p + offset, [byte]);
  }

  /** _freea of a live pointer calls free exactly if the block is on the heap, and with its base;
      the check for a corrupted marker does not fire. */
  lemma FreeaFreesHeapBlocks(t: Target, s: State, p: nat)
    requires Valid(t, s) && IsLive(t, s, p)
    ensures p - MarkerSize(t) in s.blocks
    ensures FreeaStep(t, s, p) == var b := p - MarkerSize(t);
      if s.blocks[b].place.Heap? then Release(s, b) else s.(live := s.live - {b})
    ensures Marker(s.mem, p - MarkerSize(t)) == MarkerFor(s.blocks[p - MarkerSize(t)].place)
  {
  }

  lemma ReleaseKeepsValid(t: Target, s: State, base: nat)
    requires Valid(t, s) && base in s.live
    ensures Valid(t, Release(s, base))
    ensures base in s.blocks && !s.blocks[base].place.Heap? ==> Valid(t, s.(live := s.live - {base}))
  {
  }

  lemma FreeaKeepsValid(t: Target, s: State, p: nat)
    requires Valid(t, s) && (p == 0 || IsLive(t, s, p))
    ensures Valid(t, FreeaStep(t, s, p))
  {
    if p != 0 {
      FreeaFreesHeapBlocks(t, s, p);
      ReleaseKeepsValid(t, s, p - MarkerSize(t));
    }
  }

  lemma LeaveKeepsValid(t: Target, s: State)
    requires Valid(t, s) && s.depth > 0
    ensures Valid(t, LeaveStep(s))
    ensures HeapBases(LeaveStep(s)) == HeapBases(s)
  {
    var s' := LeaveStep(s);
    assert forall b | b in s'.blocks :: b in s.blocks && s'.blocks[b] == s.blocks[b];
    assert BlocksValid(t, s'.blocks, s'.depth);
    assert LiveValid(s'.blocks, s'.live);
  }

  lemma MallocaKeepsValid(t: Target, s: State, n: nat, answer: nat)
    requires Valid(t, s) && n >= MarkerSize(t)
    requires answer != 0 ==> FreshFor(t, s.blocks, answer, n)
    ensures Valid(t, MallocaStep(t, s, n, answer))
  {
    if answer != 0 {
      AllocateKeepsValid(t, s, answer, n, PlaceFor(s, n));
    }
  }

  lemma EnterKeepsValid(t: Target, s: State)
    requires Valid(t, s)
    ensures Valid(t, Step(t, s, Enter))
  {
  }

  lemma AllocateBalances(t: Target, s: State, base: nat, n: nat, place: Place)
    requires Balanced(s) && base !in s.blocks
    ensures Balanced(Allocate(t, s, base, n, place))
  {
    var s' := Allocate(t, s, base, n, place);
    assert HeapBases(s') == if place.Heap? then HeapBases(s) + {base} else HeapBases(s);
  }

  lemma ReleaseBalances(s: State, base: nat)
    requires Balanced(s) && base in HeapBases(s)
    ensures Balanced(Release(s, base))
  {
    assert HeapBases(Release(s, base)) == HeapBases(s) - {base};
  }

  lemma MallocaBalances(t: Target, s: State, n: nat, answer: nat)
    requires BlocksValid(t, s.blocks, s.depth) && Balanced(s) && n >= MarkerSize(t)
    requires answer != 0 ==> FreshFor(t, s.blocks, answer, n)
    ensures Balanced(MallocaStep(t, s, n, answer))
  {
    if answer != 0 {
      AllocateKeepsBlocks(t, s.blocks, s.depth, answer, n, Heap);
      AllocateBalances(t, s, answer, n, PlaceFor(s, n));
    }
  }

  lemma FreeaBalances(t: Target, s: State, p: nat)
    requires Valid(t, s) && Balanced(s) && (p == 0 || IsLive(t, s, p))
    ensures Balanced(FreeaStep(t, s, p))
  {
    if p != 0 {
      FreeaFreesHeapBlocks(t, s, p);
      if s.blocks[p - MarkerSize(t)].place.Heap? {
        ReleaseBalances(s, p - MarkerSize(t));
      }
    }
  }

  lemma SameBlocksBalance(s: State, s': State)
    requires Balanced(s) && s'.blocks == s.blocks && s'.mallocs == s.mallocs && s'.freed == s.freed
    ensures Balanced(s')
  {
    assert HeapBases(s') == HeapBases(s);
  }

  lemma LeaveBalances(t: Target, s: State)
    requires Valid(t, s) && Balanced(s) && s.depth > 0
    ensures Balanced(LeaveStep(s))
  {
    LeaveKeepsValid(t, s);
  }

  /** Valid, with the account of heap blocks in balance. */
  ghost predicate Safe(t: Target, s: State) {
    Valid(t, s) && Balanced(s)
  }

  lemma MallocaOpIsValid(t: Target, s: State, op: Op)
    requires Valid(t, s) && Legal(t, s, op) && op.Malloca?
    ensures Valid(t, Step(t, s, op))
  {
    MallocaKeepsValid(t, s, TotalSize(t, op.size), op.answer);
  }

  lemma MallocaOpBalances(t: Target, s: State, op: Op)
    requires Safe(t, s) && Legal(t, s, op) && op.Malloca?
    ensures Balanced(Step(t, s, op))
  {
    MallocaBalances(t, s, TotalSize(t, op.size), op.answer);
  }

  lemma FreeaOpIsSafe(t: Target, s: State, op: Op)
    requires Safe(t, s) && Legal(t, s, op) && op.Freea?
    ensures Safe(t, Step(t, s, op))
  {
    FreeaKeepsValid(t, s, op.p);
    FreeaBalances(t, s, op.p);
  }

  lemma StoreOpIsSafe(t: Target, s: State, op: Op)
    requires Safe(t, s) && Legal(t, s, op) && op.Store?
    ensures Safe(t, Step(t, s, op))
  {
    StoreKeepsValid(t, s, op.p, op.offset, op.byte);
    SameBlocksBalance(s, Step(t, s, op));
  }

  lemma CallOpIsSafe(t: Target, s: State, op: Op)
    requires Safe(t, s) && Legal(t, s, op) && (op.Enter? || op.Leave?)
    ensures Safe(t, Step(t, s, op))
  {
    if op.Leave? {
      LeaveBalances(t, s);
      LeaveKeepsValid(t, s);
    } else {
      EnterKeepsValid(t, s);
      SameBlocksBalance(s, Step(t, s, Enter));
    }
  }

  /** Every legal step keeps the state safe. */
  lemma StepIsSafe(t: Target, s: State, op: Op)
    requires Safe(t, s) && Legal(t, s, op)
    ensures Safe(t, Step(t, s, op))
  {
    match op
    case Malloca(_, _) =>
      MallocaOpIsValid(t, s, op);
      MallocaOpBalances(t, s, op);
    case Store(_, _, _) => StoreOpIsSafe(t, s, op);
    case Freea(_) => FreeaOpIsSafe(t, s, op);
    case _ => CallOpIsSafe(t, s, op);
  }

  // ---- runs ----

  function Run(t: Target, s: State, ops: seq<Op>): State
    decreases |ops|
  {
    if ops == [] then s else Run(t, Step(t, s, ops[0]), ops[1..])
  }

  predicate LegalRun(t: Target, s: State, ops: seq<Op>)
    decreases |ops|
  {
    ops != [] ==> Legal(t, s, ops[0]) && LegalRun(t, Step(t, s, ops[0]), ops[1..])
  }

  /** This step calls free at most once, with the base of a block that is then on the heap. */
  ghost predicate FreesOnlyHeap(t: Target, s: State, op: Op) {
    var s' := Step(t, s, op);
    s'.freed == s.freed || exists b | b in HeapBases(s) :: s'.freed == s.freed + [b] && b !in HeapBases(s')
  }

  ghost predicate RunFreesOnlyHeap(t: Target, s: State, ops: seq<Op>)
    decreases |ops|
  {
    ops != [] ==> FreesOnlyHeap(t, s, ops[0]) && RunFreesOnlyHeap(t, Step(t, s, ops[0]), ops[1..])
  }

  lemma StepFreesOnlyHeap(t: Target, s: State, op: Op)
    requires Valid(t, s) && Legal(t, s, op)
    ensures FreesOnlyHeap(t, s, op)
  {
    if op.Freea? && op.p != 0 {
      FreeaFreesHeapBlocks(t, s, op.p);
      var b := op.p - MarkerSize(t);
      if s.blocks[b].place.Heap? {
        assert b in HeapBases(s) && b !in HeapBases(Release(s, b));
      }
    }
  }

  lemma {:induction false} RunIsSafe(t: Target, s: State, ops: seq<Op>)
    requires Safe(t, s) && LegalRun(t, s, ops)
    ensures Safe(t, Run(t, s, ops)) && RunFreesOnlyHeap(t, s, ops)
    decreases |ops|
  {
    if ops != [] {
      StepIsSafe(t, s, ops[0]);
      StepFreesOnlyHeap(t, s, ops[0]);
      RunIsSafe(t, Step(t, s, ops[0]), ops[1..]);
    }
  }

  /** After any legal run from the start, free has been given only bases of blocks then on the
      heap, the markers of live blocks are intact, and each heap block obtained has been released
      exactly once or is still there, reachable through a live pointer. */
  lemma RunsAreSafe(t: Target, ops: seq<Op>)
    requires LegalRun(t, Start, ops)
    ensures RunFreesOnlyHeap(t, Start, ops)
    ensures Safe(t, Run(t, Start, ops))
    ensures HeapBases(Run(t, Start, ops)) <= Run(t, Start, ops).live
  {
    assert HeapBases(Start) == {};
    RunIsSafe(t, Start, ops);
  }

  function FreeaAll(ps: seq<nat>): (ops: seq<Op>)
    ensures ps != [] ==> |ops| > 0 && ops[0] == Freea(ps[0]) && ops[1..] == FreeaAll(ps[1..])
  {
    if ps == [] then [] else [Freea(ps[0])] + FreeaAll(ps[1..])
  }

  predicate Distinct(ps: seq<nat>)
    decreases |ps|
  {
    ps != [] ==> ps[0] !in ps[1..] && Distinct(ps[1..])
  }

  /** ps lists the pointers to the live blocks, each once. */
  ghost predicate ListsLive(t: Target, live: set<nat>, ps: seq<nat>) {
    && Distinct(ps)
    && (forall p | p in ps :: p >= MarkerSize(t) && p - MarkerSize(t) in live)
    && (forall b | b in live :: b + MarkerSize(t) in ps)
  }

  lemma TailMembers(ps: seq<nat>, p: nat)
    requires ps != [] && Distinct(ps)
    ensures p in ps[1..] <==> p in ps && p != ps[0]
  {
    assert ps == [ps[0]] + ps[1..];
  }

  lemma ListsLiveTail(t: Target, live: set<nat>, ps: seq<nat>)
    requires ListsLive(t, live, ps) && ps != []
    ensures ps[0] >= MarkerSize(t) && ListsLive(t, live - {ps[0] - MarkerSize(t)}, ps[1..])
  {
    assert ps[0] in ps;
    forall p: nat ensures p in ps[1..] <==> p in ps && p != ps[0] {
      TailMembers(ps, p);
    }
  }

  lemma FreeaOne(t: Target, s: State, ps: seq<nat>) returns (s': State)
    requires Valid(t, s) && ListsLive(t, s.live, ps) && ps != []
    ensures s' == Step(t, s, Freea(ps[0])) && Legal(t, s, Freea(ps[0]))
    ensures Valid(t, s') && ListsLive(t, s'.live, ps[1..])
  {
    assert ps[0] in ps;
    s' := FreeaStep(t, s, ps[0]);
    FreeaKeepsValid(t, s, ps[0]);
    FreeaFreesHeapBlocks(t, s, ps[0]);
    ListsLiveTail(t, s.live, ps);
  }

  /** Giving every live pointer back once, in any order, is legal and leaves no heap block. */
  lemma {:induction false} FreeingAllLeavesNone(t: Target, s: State, ps: seq<nat>)
    requires Valid(t, s) && ListsLive(t, s.live, ps)
    ensures LegalRun(t, s, FreeaAll(ps))
    ensures Run(t, s, FreeaAll(ps)).live == {} && HeapBases(Run(t, s, FreeaAll(ps))) == {}
    decreases |ps|
  {
    if ps == [] {
      assert s.live == {};
    } else {
      var s' := FreeaOne(t, s, ps);
      FreeingAllLeavesNone(t, s', ps[1..]);
    }
  }

  // ---- which blocks are where ----

  /** Blocks of at most 1024 bytes, marker included, are on the stack, and larger ones on the heap. */
  ghost predicate PlacedBySize(blocks: map<nat, Block>) {
    forall b | b in blocks :: blocks[b].place.Heap? <==> blocks[b].size > 1024
  }

  lemma StepPlacesBySize(t: Target, s: State, op: Op)
    requires Valid(t, s) && Legal(t, s, op) && PlacedBySize(s.blocks)
    ensures PlacedBySize(Step(t, s, op).blocks)
  {
    if op.Freea? && op.p != 0 {
      FreeaFreesHeapBlocks(t, s, op.p);
    }
  }

  lemma {:induction false} RunPlacesBySize(t: Target, s: State, ops: seq<Op>)
    requires Safe(t, s) && LegalRun(t, s, ops) && PlacedBySize(s.blocks)
    ensures PlacedBySize(Run(t, s, ops).blocks)
    decreases |ops|
  {
    if ops != [] {
      StepIsSafe(t, s, ops[0]);
      StepPlacesBySize(t, s, ops[0]);
      RunPlacesBySize(t, Step(t, s, ops[0]), ops[1..]);
    }
  }

  /** Over every run from the start, the size of a block alone decides where it is. */
  lemma RunsPlaceBySize(t: Target, ops: seq<Op>, b: nat)
    requires LegalRun(t, Start, ops) && b in Run(t, Start, ops).blocks
    ensures Run(t, Start, ops).blocks[b].place.Heap? <==> Run(t, Start, ops).blocks[b].size > 1024
  {
    RunsAreSafe(t, []);
    RunPlacesBySize(t, Start, ops);
  }

  /** The stack blocks of the outermost frames, down to depth d. */
  function CallerBlocks(blocks: map<nat, Block>, d: nat): map<nat, Block> {
    map b | b in blocks && blocks[b].place.Stack? && blocks[b].place.depth <= d :: blocks[b]
  }

  lemma AllocateKeepsCallers(blocks: map<nat, Block>, base: nat, n: nat, place: Place, d: nat)
    requires base !in blocks && (place.Stack? ==> place.depth > d)
    ensures CallerBlocks(blocks[base := Block(n, place)], d) == CallerBlocks(blocks, d)
  {
  }

  lemma StepKeepsCallers(t: Target, s: State, op: Op, d: nat)
    requires Valid(t, s) && Legal(t, s, op) && s.depth > d
    ensures CallerBlocks(Step(t, s, op).blocks, d) == CallerBlocks(s.blocks, d)
  {
    match op
    case Malloca(size, answer) =>
      if answer != 0 {
        AllocateKeepsBlocks(t, s.blocks, s.depth, answer, TotalSize(t, size), Heap);
        AllocateKeepsCallers(s.blocks, answer, TotalSize(t, size), PlaceFor(s, TotalSize(t, size)), d);
      }
    case Freea(p) =>
      if p != 0 {
        FreeaFreesHeapBlocks(t, s, p);
      }
    case _ =>
  }

  /** No frame as far out as depth d is left during the run. */
  predicate StaysBelow(t: Target, s: State, ops: seq<Op>, d: nat)
    decreases |ops|
  {
    s.depth > d && (ops != [] ==> StaysBelow(t, Step(t, s, ops[0]), ops[1..], d))
  }

  lemma {:induction false} RunKeepsCallers(t: Target, s: State, ops: seq<Op>, d: nat)
    requires Safe(t, s) && LegalRun(t, s, ops) && StaysBelow(t, s, ops, d)
    ensures CallerBlocks(Run(t, s, ops).blocks, d) == CallerBlocks(s.blocks, d)
    decreases |ops|
  {
    if ops != [] {
      StepIsSafe(t, s, ops[0]);
      StepKeepsCallers(t, s, ops[0], d);
      RunKeepsCallers(t, Step(t, s, ops[0]), ops[1..], d);
    }
  }

  function StackBlocks(blocks: map<nat, Block>): map<nat, Block> {
    map b | b in blocks && blocks[b].place.Stack? :: blocks[b]
  }

  /** All stack blocks belong to frames that have not been left. */
  lemma StackIsCallers(t: Target, s: State)
    requires Valid(t, s)
    ensures StackBlocks(s.blocks) == CallerBlocks(s.blocks, s.depth)
  {
  }

  lemma CallKeepsCallers(t: Target, s1: State, ops: seq<Op>, s2: State, s3: State, d: nat)
    requires Safe(t, s1) && LegalRun(t, s1, ops) && StaysBelow(t, s1, ops, d)
    requires s2 == Run(t, s1, ops) && s2.depth == d + 1 && s3 == Step(t, s2, Leave)
    ensures Safe(t, s3) && s3.depth == d && StackBlocks(s3.blocks) == CallerBlocks(s1.blocks, d)
  {
    RunIsSafe(t, s1, ops);
    RunKeepsCallers(t, s1, ops, d);
    StepIsSafe(t, s2, Leave);
    StepKeepsCallers(t, s2, Leave, d);
    StackIsCallers(t, s3);
  }

  /** A whole call, whatever happens in it: when the function has returned, the stack blocks are
      exactly those from before, so that all those obtained in the call are gone. */
  lemma CallRestoresStack(t: Target, s: State, ops: seq<Op>, s1: State, s2: State, s3: State)
    requires Safe(t, s) && s1 == Step(t, s, Enter)
    requires LegalRun(t, s1, ops) && StaysBelow(t, s1, ops, s.depth)
    requires s2 == Run(t, s1, ops) && s2.depth == s.depth + 1
    requires s3 == Step(t, s2, Leave)
    ensures Safe(t, s3) && s3.depth == s.depth && StackBlocks(s3.blocks) == StackBlocks(s.blocks)
  {
    StepIsSafe(t, s, Enter);
    CallKeepsCallers(t, s1, ops, s2, s3, s.depth);
    StackIsCallers(t, s);
  }

  // ---- sizes that wrap ----

  /** The sum of size_t in numbers. */
  lemma TotalSizeIsSum(t: Target, size: nat)
    requires size < AddressSpace(t)
    ensures t.X86? ==> TotalSize(t, size) == (size + 8) % 0x1_0000_0000
    ensures t.X64? ==> TotalSize(t, size) == (size + 16) % 0x1_0000_0000_0000_0000
  {
  }

  /** What _malloca does with the block it is given keeps the state valid exactly if the block has
      room for marker and data, and that is if the sum does not wrap. */
  lemma ValidExactlyWithoutWrap(t: Target, s: State, size: nat, answer: nat)
    requires Valid(t, s) && size < AddressSpace(t)
    requires answer != 0 ==> FreshFor(t, s.blocks, answer, TotalSize(t, size))
    ensures Valid(t, Step(t, s, Malloca(size, answer))) <==> answer == 0 || NoWrap(t, size)
    ensures TotalSize(t, size) >= size + MarkerSize(t) <==> NoWrap(t, size)
  {
    if answer != 0 {
      var n := TotalSize(t, size);
      var s' := Step(t, s, Malloca(size, answer));
      if NoWrap(t, size) {
        AllocateKeepsValid(t, s, answer, n, PlaceFor(s, n));
      } else {
        assert answer in s'.blocks && s'.blocks[answer].size < MarkerSize(t);
      }
    }
  }

  /** Some byte, written among the first size bytes behind p, changes the marker at b. */
  ghost predicate CanDestroy(t: Target, m: Bytewise, p: nat, size: nat, b: nat) {
    exists offset: nat, byte: nat | offset < size && byte < 256 ::
      Marker(Write(m, Plus(t, p, offset), [byte]), b) != Marker(m, b)
  }

  lemma MarkerChanged(m: Bytewise, b: nat, a: nat, byte: nat)
    requires b <= a < b + 4 && byte != At(m, a)
    ensures Marker(Write(m, a, [byte]), b) != Marker(m, b)
  {
    LoadChanged(m, Write(m, a, [byte]), b, 4, a);
  }

  /** Where a client that uses the whole size gets to from a request that wrapped. */
  lemma WrappedReach(t: Target, base: nat, size: nat, a: nat) returns (offset: nat)
    requires size < AddressSpace(t) && !NoWrap(t, size)
    requires 0 < base && base + MarkerSize(t) < AddressSpace(t) && a < AddressSpace(t)
    requires a < base || a >= base + MarkerSize(t)
    ensures offset < size && Plus(t, base + MarkerSize(t), offset) == a
  {
    var p := base + MarkerSize(t);
    offset := if a >= p then a - p else a + AddressSpace(t) - p;
  }

  lemma OutOfReach(t: Target, base: nat, size: nat, b: nat, offset: nat)
    requires size < AddressSpace(t) && !NoWrap(t, size) && offset < size
    requires base + TotalSize(t, size) <= b && b + 4 <= base + MarkerSize(t) < AddressSpace(t)
    ensures Apart(b, 4, Plus(t, base + MarkerSize(t), offset), 1)
  {
  }

  lemma MarkerOutOfReach(t: Target, m: Bytewise, base: nat, size: nat, b: nat)
    requires size < AddressSpace(t) && !NoWrap(t, size)
    requires base + TotalSize(t, size) <= b && b + 4 <= base + MarkerSize(t) < AddressSpace(t)
    ensures !CanDestroy(t, m, base + MarkerSize(t), size, b)
  {
    var p := base + MarkerSize(t);
    forall offset: nat, byte: nat | offset < size && byte < 256
      ensures Marker(Write(m, Plus(t, p, offset), [byte]), b) == Marker(m, b)
    {
      OutOfReach(t, base, size, b, offset);
      MarkerUntouched(m, b, Plus(t, p, offset), [byte]);
    }
  }

  lemma MarkerInReach(t: Target, m: Bytewise, base: nat, size: nat, b: nat)
    requires size < AddressSpace(t) && !NoWrap(t, size)
    requires 0 < base && base + MarkerSize(t) < AddressSpace(t) && b + 4 <= AddressSpace(t)
    requires b < base || b + 3 >= base + MarkerSize(t)
    ensures CanDestroy(t, m, base + MarkerSize(t), size, b)
  {
    var a := if b < base then b else b + 3;
    var offset := WrappedReach(t, base, size, a);
    var byte := if At(m, a) == 0 then 1 else 0;
    MarkerChanged(m, b, a, byte);
  }

  /** After a request that wrapped, a client that keeps to its size can destroy the marker of every
      other live block, unless that lies in the room that the new marker should have had. */
  lemma WrappedRequestHarms(t: Target, s: State, size: nat, base: nat, b: nat)
    requires Valid(t, s) && b in s.live
    requires size < AddressSpace(t) && !NoWrap(t, size)
    requires FreshFor(t, s.blocks, base, TotalSize(t, size)) && base + MarkerSize(t) < AddressSpace(t)
    ensures CanDestroy(t, Step(t, s, Malloca(size, base)).mem, base + MarkerSize(t), size, b)
      <==> !(base + TotalSize(t, size) <= b && b + 4 <= base + MarkerSize(t))
  {
    var m := Step(t, s, Malloca(size, base)).mem;
    assert Apart(base, TotalSize(t, size), b, s.blocks[b].size);
    if base + TotalSize(t, size) <= b && b + 4 <= base + MarkerSize(t) {
      MarkerOutOfReach(t, m, base, size, b);
    } else {
      MarkerInReach(t, m, base, size, b);
    }
  }

  // ---- _malloca in numbers ----

  /** Up to 1024 bytes, marker included, go to the current stack frame, and more to the heap; nothing
      but the four bytes of the marker is written. */
  lemma MallocaInNumbers(t: Target, s: State, size: nat, answer: nat)
    requires answer != 0
    ensures var s', n := Step(t, s, Malloca(size, answer)), TotalSize(t, size);
      && s'.blocks == s.blocks[answer := Block(n, if n <= 1024 then Stack(s.depth) else Heap)]
      && Load(s'.mem, answer, 4) == (if n <= 1024 then 0xCCCC else 0xDDDD)
      && s'.mallocs == (if n <= 1024 then s.mallocs else s.mallocs + [answer])
      && s'.freed == s.freed && s'.depth == s.depth && s'.live == s.live + {answer}
      && forall i: nat :: At(s'.mem, i) == At(s.mem, i) || answer <= i < answer + 4
  {
    MarkerReadBack(s.mem, answer, Heap);
    MarkerReadBack(s.mem, answer, Stack(s.depth));
  }

  // ---- the code ----

  class Process {
    const t: Target
    var mem: Bytewise
    var blocks: map<nat, Block>
    var depth: nat
    ghost var mallocs: seq<nat>
    ghost var freed: seq<nat>
    ghost var live: set<nat>

    ghost function Model(): State
      reads this
    {
      State(mem, blocks, depth, mallocs, freed, live)
    }

    constructor (t: Target)
      ensures this.t == t && Model() == Start
    {
      this.t := t;
      mem, blocks, depth := map[], map[], 0;
      mallocs, freed, live := [], [], {};
    }

    /** malloc: its contract is the caller's word for the address it answers with. */
    method Malloc(n: nat, answer: nat) returns (p: nat)
      requires answer != 0 ==> FreshFor(t, blocks, answer, n)
      modifies this`blocks, this`mallocs
      ensures p == answer
      ensures blocks == (if p == 0 then old(blocks) else old(blocks)[p := Block(n, Heap)])
      ensures mallocs == (if p == 0 then old(mallocs) else old(mallocs) + [p])
    {
      p := answer;
      if p != 0 {
        blocks := blocks[p := Block(n, Heap)];
        mallocs := mallocs + [p];
      }
    }

    /** alloca: the block belongs to the current frame. */
    method Alloca(n: nat, answer: nat) returns (p: nat)
      requires answer != 0 && FreshFor(t, blocks, answer, n)
      modifies this`blocks
      ensures p == answer && blocks == old(blocks)[p := Block(n, Stack(depth))]
    {
      p := answer;
      blocks := blocks[p := Block(n, Stack(depth))];
    }

    /** free: it may only be given the base of a block on the heap. */
    method Free(base: nat)
      requires base in blocks && blocks[base].place.Heap?
      modifies this`blocks, this`freed
      ensures blocks == old(blocks) - {base} && freed == old(freed) + [base]
    {
      blocks := blocks - {base};
      freed := freed + [base];
    }

    /** _MarkAllocaS */
    method MarkAllocaS(p: nat, marker: nat) returns (r: nat)
      modifies this`mem, this`live
      ensures p == 0 ==> r == 0 && mem == old(mem) && live == old(live)
      ensures p != 0 ==> r == Plus(t, p, MarkerSize(t)) && live == old(live) + {p}
      ensures p != 0 ==> mem == Write(old(mem), p, Bytes(marker, 4))
      ensures t.X86? && 0 < p < 0x1_0000_0000 - 8 ==> r == p + 8
      ensures t.X64? && 0 < p < 0x1_0000_0000_0000_0000 - 16 ==> r == p + 16
    {
      r := p;
      if r != 0 {
        mem := Write(mem, r, Bytes(marker, 4));
        live := live + {r};
        r := Plus(t, r, MarkerSize(t));
      }
    }

    /** _malloca, for any size_t. */
    method MallocA(size: nat, answer: nat) returns (p: nat)
      requires Valid(t, Model()) && size < AddressSpace(t)
      requires CanAnswer(t, blocks, TotalSize(t, size), answer)
      modifies this
      ensures Model() == Step(t, old(Model()), Malloca(size, answer))
      ensures Valid(t, Model()) <==> answer == 0 || NoWrap(t, size)
      ensures answer == 0 ==> p == 0 && Model() == old(Model())
      ensures answer != 0 && TotalSize(t, size) <= 1024 ==>
        && blocks == old(blocks)[answer := Block(TotalSize(t, size), Stack(depth))]
        && Load(mem, answer, 4) == 0xCCCC && mallocs == old(mallocs)
      ensures answer != 0 && TotalSize(t, size) > 1024 ==>
        && blocks == old(blocks)[answer := Block(TotalSize(t, size), Heap)]
        && Load(mem, answer, 4) == 0xDDDD && mallocs == old(mallocs) + [answer]
      ensures freed == old(freed) && depth == old(depth)
      ensures forall i: nat :: At(mem, i) == At(old(mem), i) || (answer != 0 && answer <= i < answer + 4)
      ensures p == if answer == 0 then 0 else Plus(t, answer, MarkerSize(t))
      ensures NoWrap(t, size) && answer != 0 ==> p == answer + MarkerSize(t) && IsLive(t, Model(), p)
    {
      ValidExactlyWithoutWrap(t, Model(), size, answer);
      if answer != 0 {
        MallocaInNumbers(t, Model(), size, answer);
      }
      var total := TotalSize(t, size);
      if total <= ALLOCA_S_THRESHOLD {
        p := Alloca(total, answer);
        p := MarkAllocaS(p, ALLOCA_S_STACK_MARKER);
      } else {
        p := Malloc(total, answer);
        p := MarkAllocaS(p, ALLOCA_S_HEAP_MARKER);
      }
    }

    /** _freea: corrupted tells whether the debug check for a foreign marker fires. */
    method FreeA(p0: nat) returns (corrupted: bool)
      requires Valid(t, Model()) && Legal(t, Model(), Freea(p0))
      modifies this
      ensures Model() == Step(t, old(Model()), Freea(p0)) && Valid(t, Model())
      ensures !corrupted
      ensures p0 == 0 ==> Model() == old(Model())
      ensures p0 != 0 ==>
        var base: int := if t.X86? then p0 - 8 else p0 - 16;
        && base in old(blocks) && live == old(live) - {base}
        && mem == old(mem) && depth == old(depth) && mallocs == old(mallocs)
        && (old(blocks)[base].place.Heap? ==>
              Load(mem, base, 4) == 0xDDDD && blocks == old(blocks) - {base} && freed == old(freed) + [base])
        && (old(blocks)[base].place.Stack? ==>
              Load(mem, base, 4) == 0xCCCC && blocks == old(blocks) && freed == old(freed))
    {
      FreeaKeepsValid(t, Model(), p0);
      corrupted := false;
      var p := p0;
      if p != 0 {
        FreeaFreesHeapBlocks(t, Model(), p);
        p := p - MarkerSize(t);
        var marker := Marker(mem, p);
        if marker == ALLOCA_S_HEAP_MARKER {
          Free(p);
        } else if marker != ALLOCA_S_STACK_MARKER {
          corrupted := true;
        }
        live := live - {p};
      }
    }

    /** The client writes a byte of a live block. */
    method Put(p: nat, offset: nat, byte: nat)
      requires Valid(t, Model()) && Legal(t, Model(), Store(p, offset, byte))
      modifies this
      ensures Model() == Step(t, old(Model()), Store(p, offset, byte)) && Valid(t, Model())
      ensures forall i: nat :: At(mem, i) == if i == p + offset then byte else At(old(mem), i)
    {
      StoreKeepsValid(t, Model(), p, offset, byte);
      mem := Write(mem, p + offset, [byte]);
    }

    /** A function is called. */
    method EnterFrame()
      requires Valid(t, Model())
      modifies this`depth
      ensures Model() == Step(t, old(Model()), Enter) && Valid(t, Model())
    {
      EnterKeepsValid(t, Model());
      depth := depth + 1;
    }

    /** A function returns, and its stack blocks with it. */
    method LeaveFrame()
      requires Valid(t, Model()) && depth > 0
      modifies this
      ensures Model() == Step(t, old(Model()), Leave) && Valid(t, Model())
      ensures depth == old(depth) - 1 && mem == old(mem) && mallocs == old(mallocs) && freed == old(freed)
      ensures forall b :: b in blocks <==> b in old(blocks) && old(blocks)[b].place != Stack(old(depth))
      ensures forall b | b in blocks :: blocks[b] == old(blocks)[b]
      ensures forall b :: b in live <==> b in old(live) && old(blocks)[b].place != Stack(old(depth))
    {
      LeaveKeepsValid(t, Model());
      ghost var gone := Popped(Model());
      blocks := map b | b in blocks && blocks[b].place != Stack(depth) :: blocks[b];
      live := live - gone;
      depth := depth - 1;
      assert blocks == old(blocks) - gone;
    }
  }
}
