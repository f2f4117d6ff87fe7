/** The allocator as its clients see it: what each operation may do to the set of live allocations
    and to memory, and what follows for whole runs. */
module TlsfRuns {
  import opened Bits
  import opened TlsfMapping
  import opened TlsfMemory
  import opened TlsfBlocks
  import opened TlsfLists
  import opened TlsfHeaders
  import opened TlsfInvariant
  import opened TlsfLive
  import opened TlsfOversize
  import opened Tlsf

  // ---------- one state ----------

  /** Live allocations are aligned, inside their pool, and do not overlap: not even the word in
      which a free block would record itself is shared. */
  lemma LiveAreDisjoint(h: Heap, b: int, c: int)
    requires HeapInv(h, {}) && b in Used(h.B) && c in Used(h.B)
    ensures (b + START_OFFSET) % ALIGN_SIZE == 0
    ensures h.B[b].pool in h.pools
    ensures h.B[b].pool + START_OFFSET <= b + START_OFFSET && b + START_OFFSET + h.B[b].size <= h.pools[h.B[b].pool] + 8
    ensures b < c ==> b + START_OFFSET + h.B[b].size + 8 <= c + START_OFFSET
  {
    assert BlockOk(h.B, b) && Apart(h.B, b, c) && InPool(h.B, h.pools, b);
    WalkStep(h, b);
  }

  /** The bytes of the blocks from b on, headers included, up to the sentinel. */
  ghost function Span(B: Blocks, b: int, sentinel: int): int
    decreases sentinel - b
  {
    if b in B && B[b].size != 0 && b < sentinel then
      BLOCK_HEADER_OVERHEAD + B[b].size + Span(B, Next(B, b), sentinel)
    else 0
  }

  /** Conservation: the blocks of a pool always add up to the pool. */
  lemma {:induction false} BlocksFillPool(h: Heap, b: int)
    requires HeapInv(h, {}) && b in h.B && h.B[b].pool in h.pools
    ensures b <= h.pools[h.B[b].pool]
    ensures Span(h.B, b, h.pools[h.B[b].pool]) == h.pools[h.B[b].pool] - b
    decreases h.pools[h.B[b].pool] - b
  {
    assert InPool(h.B, h.pools, b);
    if h.B[b].size != 0 {
      WalkStep(h, b);
      BlocksFillPool(h, Next(h.B, b));
    }
  }

  /** Full coalescing: a pool without a live allocation is one free block of the pool's whole size. */
  lemma UnusedPoolIsOneBlock(h: Heap, p: int)
    requires HeapInv(h, {}) && p in h.pools
    requires forall b {:trigger b in Used(h.B)} :: b in Used(h.B) ==> h.B[b].pool != p
    ensures PoolUnused(h.B, h.pools, p) && h.B[p].size == h.pools[p] - p - 8
  {
    PoolStart(h, p);
    assert PoolOk(h.B, h.pools, p) && BlockOk(h.B, p);
    assert p !in Used(h.B);
    FreeNeighbours(h, p);
    var n := Next(h.B, p);
    assert n !in Used(h.B);
    assert BlockOk(h.B, n) && InPool(h.B, h.pools, n);
  }

  /** Following next_free from one listed block reaches another. */
  ghost predicate Reaches(h: Heap, b: int, c: int)
    requires Lists(h.m, h.heads, h.nul, h.L) && b in h.L
    decreases h.L[b].rank
  {
    assert NodeOk(h.m, h.heads, h.nul, h.L, b);
    var next := Read(h.m, b + NEXT_FREE);
    b == c || (next != h.nul && Reaches(h, next, c))
  }

  lemma {:induction false} ReachesNext(h: Heap, b: int, p: int, c: int)
    requires Lists(h.m, h.heads, h.nul, h.L) && b in h.L && Reaches(h, b, p)
    requires p in h.L && Read(h.m, p + NEXT_FREE) == c && c in h.L
    ensures Reaches(h, b, c)
    decreases h.L[b].rank
  {
    assert NodeOk(h.m, h.heads, h.nul, h.L, b);
    var next := Read(h.m, b + NEXT_FREE);
    if b == p {
      assert Reaches(h, c, c);
    } else {
      ReachesNext(h, next, p, c);
    }
  }

  lemma {:induction false} HeadReaches(h: Heap, c: int)
    requires Lists(h.m, h.heads, h.nul, h.L) && c in h.L
    ensures 0 <= h.L[c].cls < CLASS_COUNT && h.heads[h.L[c].cls] in h.L && Reaches(h, h.heads[h.L[c].cls], c)
    decreases Above(h.L, c)
  {
    assert NodeOk(h.m, h.heads, h.nul, h.L, c);
    var prev := Read(h.m, c + PREV_FREE);
    if prev != h.nul {
      assert NodeOk(h.m, h.heads, h.nul, h.L, prev);
      assert prev in Above(h.L, c) && prev !in Above(h.L, prev) && Above(h.L, prev) <= Above(h.L, c);
      HeadReaches(h, prev);
      ReachesNext(h, h.heads[h.L[c].cls], prev, c);
    }
  }

  lemma {:induction false} ReachesSameClass(h: Heap, b: int, c: int)
    requires Lists(h.m, h.heads, h.nul, h.L) && b in h.L && Reaches(h, b, c)
    ensures c in h.L && h.L[c].cls == h.L[b].cls
    decreases h.L[b].rank
  {
    assert NodeOk(h.m, h.heads, h.nul, h.L, b);
    if b != c { ReachesSameClass(h, Read(h.m, b + NEXT_FREE), c); }
  }

  /** The list of class k, followed from its head, holds exactly the free blocks of that class. */
  lemma ListsAreExact(h: Heap, k: int, c: int)
    requires HeapInv(h, {}) && 0 <= k < CLASS_COUNT
    ensures (h.heads[k] in h.L && Reaches(h, h.heads[k], c)) <==> (c in h.B && h.B[c].free && Class(h.B[c].size) == k)
  {
    assert TieOk(h.B, h.L, {}, c);
    assert HeadOk(h.m, h.heads, h.nul, h.L, k);
    if h.heads[k] in h.L && Reaches(h, h.heads[k], c) {
      ReachesSameClass(h, h.heads[k], c);
      assert h.heads[k] != h.nul && FiledOk(h.B, h.L, c);
    } else if c in h.L {
      HeadReaches(h, c);
      assert FiledOk(h.B, h.L, c);
    }
  }

  // ---------- one step ----------

  /** What a client can do. Store is a client's own write of one byte to an allocation it holds. */
  datatype Op =
    | Malloc(size: nat)
    | Memalign(e: nat, size: nat)
    | Free(ptr: int)
    | Realloc(ptr: int, size: nat)
    | AddPool(start: nat, bytes: nat)
    | Store(ptr: int, a: int, v: int)

  /** The block an operation is about, if it names one. */
  function Target(op: Op): int {
    match op
    case Malloc(_) => 0
    case Memalign(_, _) => 0
    case AddPool(_, _) => 0
    case Free(ptr) => ptr - START_OFFSET
    case Realloc(ptr, _) => ptr - START_OFFSET
    case Store(ptr, _, _) => ptr - START_OFFSET
  }

  /** What the allocator demands of its callers. */
  ghost predicate Allowed(h: Heap, op: Op) {
    match op
    case Malloc(size) => size < SIZE_MOD
    case Memalign(e, size) => size < SIZE_MOD && e < 63
    case Free(ptr) => ptr == 0 || Target(op) in Used(h.B)
    case Realloc(ptr, size) =>
      && size < SIZE_MOD && (ptr == 0 || Target(op) in Used(h.B))
      && (ptr != 0 && size != 0 ==> AdjustRequestSize(size, ALIGN_SIZE) != 0)
    case AddPool(start, bytes) =>
      && start < SIZE_MOD && bytes < SIZE_MOD && !PoolTooLarge(bytes)
      && (start % ALIGN_SIZE == 0 && PoolAdmitted(bytes) ==> Unowned(h, start, bytes))
    case Store(ptr, a, v) => Target(op) in Used(h.B) && ptr <= a < ptr + h.B[Target(op)].size && 0 <= v < 256
  }

  /** The live allocations after an operation with result p. */
  function After(S: set<int>, op: Op, p: int): set<int> {
    var gained := if p != 0 then {p - START_OFFSET} else {};
    match op
    case Malloc(_) => S + gained
    case Memalign(_, _) => S + gained
    case Free(ptr) => if ptr == 0 then S else S - {Target(op)}
    case Realloc(ptr, size) => S - (if ptr != 0 && (size == 0 || p != 0) then {Target(op)} else {}) + gained
    case AddPool(_, _) => S
    case Store(_, _, _) => S
  }

  /** The pools after an operation with result p: first blocks and sentinels. */
  function PoolsAfter(pools: map<int, int>, op: Op, p: int): map<int, int> {
    if op.AddPool? && p != 0 && op.bytes < SIZE_MOD then pools[op.start - 8 := op.start + PoolBytes(op.bytes)]
    else pools
  }

  /** The size a successful operation must provide. */
  function Needed(op: Op): nat {
    match op
    case Malloc(size) => AdjustRequestSize(size, ALIGN_SIZE)
    case Memalign(_, size) => AdjustRequestSize(size, ALIGN_SIZE)
    case Realloc(_, size) => AdjustRequestSize(size, ALIGN_SIZE)
    case Free(_) => 0
    case AddPool(_, _) => 0
    case Store(_, _, _) => 0
  }

  /** The live allocations: what is handed out was not live before and is large enough. */
  ghost predicate StepLive(h: Heap, op: Op, p: int, h': Heap) {
    var b := p - START_OFFSET;
    && Used(h'.B) == After(Used(h.B), op, p)
    && (op.Free? || op.Store? ==> p == 0)
    && (p != 0 && !op.AddPool? ==> b in Used(h'.B) && b in h'.B && Tight(h'.B[b].size, Needed(op)))
    && (p != 0 && !op.AddPool? ==> b !in Used(h.B) || (op.Realloc? && b == Target(op)))
    && (p != 0 && op.Memalign? ==> p % Pow2(op.e) == 0)
  }

  /** The one block an operation may write to or take away: its target, or the block it hands out. */
  ghost predicate Excepted(h: Heap, op: Op, p: int, x: int) {
    x == Target(op) || (x == p - START_OFFSET && x !in Used(h.B))
  }

  /** Everything else that is live keeps its size and its words. */
  ghost predicate StepFrame(h: Heap, op: Op, p: int, h': Heap) {
    exists x :: Excepted(h, op, p, x) && Keeps(h.B, x, h.m, h'.m) && SameUsed(h.B, x, h'.B)
  }

  /** Null is a refusal of these operations; tlsf_free and a realloc that frees have no other answer. */
  predicate MayRefuse(op: Op) {
    op.Malloc? || op.Memalign? || op.AddPool? || (op.Realloc? && (op.ptr == 0 || op.size != 0))
  }

  /** A refusal changes nothing, malloc and memalign refuse only when nothing fits, realloc leaves a block
      in its place if it can, and keeps the bytes that both the old block and the request cover. */
  ghost predicate StepAnswer(h: Heap, op: Op, p: int, h': Heap) {
    && (p == 0 && MayRefuse(op) ==> h'.B == h.B && h'.m == h.m)
    && (op.AddPool? && op.bytes < SIZE_MOD ==>
          p == if op.start % ALIGN_SIZE == 0 && PoolAdmitted(op.bytes) then op.start else 0)
    && (op.Malloc? ==> (p == 0 <==> Needed(op) == 0 || NoneFits(h.B, Needed(op))))
    && (op.Memalign? ==>
          var request := AlignedRequestSize(Needed(op), Pow2(op.e));
          p == 0 <==> request == 0 || NoneFits(h.B, request))
    && (op.Realloc? && op.ptr != 0 && op.size != 0 ==>
          && Target(op) in h.B && Next(h.B, Target(op)) in h.B
          && (p == op.ptr <==> FitsInPlace(h.B, Target(op), Needed(op)))
          && (p == 0 <==> !FitsInPlace(h.B, Target(op), Needed(op)) && NoneFits(h.B, Needed(op))))
    && (op.Realloc? && op.ptr != 0 && p != 0 && op.size <= SIZE_MOD - ALIGN_SIZE && Target(op) in h.B ==>
          SameBytes(h'.m, p, h.m, op.ptr, if h.B[Target(op)].size < op.size then h.B[Target(op)].size else op.size))
  }

  /** One operation with result p takes the allocator from h to h'. */
  ghost predicate Step(h: Heap, op: Op, p: int, h': Heap) {
    && HeapInv(h, {}) && Allowed(h, op) && HeapInv(h', {}) && h'.pools == PoolsAfter(h.pools, op, p)
    && StepLive(h, op, p, h') && StepFrame(h, op, p, h') && StepAnswer(h, op, p, h')
  }

  /** An allocation that an operation does not name survives it, with its size and every word of
      its payload, wherever the allocator has to write to do its work. */
  lemma StepSpares(h: Heap, op: Op, p: int, h': Heap, b: int)
    requires Step(h, op, p, h') && b in Used(h.B) && b != Target(op)
    ensures b in Used(h'.B) && h'.B[b].size == h.B[b].size
    ensures PayloadKept(h.m, h'.m, b, h.B[b].size)
  {
    var x :| Excepted(h, op, p, x) && Keeps(h.B, x, h.m, h'.m) && SameUsed(h.B, x, h'.B);
    assert b in h'.B;
    assert PayloadKept(h.m, h'.m, b, h.B[b].size);
  }

  /** No pool goes away or changes its size. */
  lemma StepKeepsPools(h: Heap, op: Op, p: int, h': Heap)
    requires Step(h, op, p, h')
    ensures SamePools(h.pools, h'.pools)
  {
    forall q | q in h.pools ensures q in h'.pools && h'.pools[q] == h.pools[q] {
      if op.AddPool? && p != 0 { NewPoolElsewhere(h, op.start, op.bytes, q); }
    }
  }

  lemma NewPoolElsewhere(h: Heap, start: nat, bytes: nat, q: int)
    requires HeapInv(h, {}) && Unowned(h, start, bytes) && 0 < bytes && q in h.pools
    ensures q != start - 8
  {
    assert PoolOk(h.B, h.pools, q);
  }

  ghost predicate SamePools(pools: map<int, int>, pools': map<int, int>) {
    forall q :: q in pools ==> q in pools' && pools'[q] == pools[q]
  }

  // ---------- the code takes such steps ----------

  lemma FreshPlace(h: Heap, found: int, b: int)
    requires HeapInv(h, {}) && Placed(h.B, found, b) && h.B[found].free
    ensures b !in Used(h.B)
  {
    assert b in h.B ==> Apart(h.B, found, b);
  }

  method DoMalloc(c: Control, size: nat) returns (p: int)
    requires c.Valid() && size < SIZE_MOD
    modifies c, c.slBitmap, c.blocks
    ensures c.Valid() && Step(old(c.Snapshot()), Op.Malloc(size), p, c.Snapshot())
  {
    ghost var h := c.Snapshot();
    p := c.Malloc(size);
    if p == 0 {
      KeepsNothing(h.B, 0 - START_OFFSET, h.m);
      assert Excepted(h, Op.Malloc(size), p, 0 - START_OFFSET) by {
        assert -START_OFFSET in h.B ==> BlockOk(h.B, -START_OFFSET);
      }
    } else {
      UsedAllocate(h.B, p - START_OFFSET, AdjustRequestSize(size, ALIGN_SIZE));
      assert Excepted(h, Op.Malloc(size), p, p - START_OFFSET);
    }
  }

  method DoMemalign(c: Control, e: nat, size: nat) returns (p: int)
    requires c.Valid() && size < SIZE_MOD && e < 63
    modifies c, c.slBitmap, c.blocks
    ensures c.Valid() && Step(old(c.Snapshot()), Op.Memalign(e, size), p, c.Snapshot())
  {
    ghost var h := c.Snapshot();
    ghost var found;
    p, found := c.Memalign(Pow2(e), size, e);
    if p == 0 {
      KeepsNothing(h.B, 0 - START_OFFSET, h.m);
      assert Excepted(h, Op.Memalign(e, size), p, 0 - START_OFFSET) by {
        assert -START_OFFSET in h.B ==> BlockOk(h.B, -START_OFFSET);
      }
    } else {
      ghost var b := p - START_OFFSET;
      UsedWithGap(h, found, b);
      UsedAllocate(WithGap(h.B, found, b), b, AdjustRequestSize(size, ALIGN_SIZE));
      assert b !in Used(h.B) by { FreshPlace(h, found, b); }
      assert Excepted(h, Op.Memalign(e, size), p, b);
    }
  }

  method DoFree(c: Control, ptr: int)
    requires c.Valid() && (ptr == 0 || ptr - START_OFFSET in Used(c.layout.B))
    modifies c, c.slBitmap, c.blocks
    ensures c.Valid() && Step(old(c.Snapshot()), Op.Free(ptr), 0, c.Snapshot())
  {
    ghost var h := c.Snapshot();
    c.Free(ptr);
    if ptr == 0 {
      KeepsNothing(h.B, 0 - START_OFFSET, h.m);
    } else {
      UsedRelease(h, ptr - START_OFFSET);
    }
    assert Excepted(h, Op.Free(ptr), 0, ptr - START_OFFSET);
  }

  method DoRealloc(c: Control, ptr: int, size: nat) returns (p: int)
    requires c.Valid() && Allowed(c.Snapshot(), Op.Realloc(ptr, size))
    modifies c, c.slBitmap, c.blocks
    ensures c.Valid() && Step(old(c.Snapshot()), Op.Realloc(ptr, size), p, c.Snapshot())
  {
    ghost var h, op := c.Snapshot(), Op.Realloc(ptr, size);
    p := c.Realloc(ptr, size);
    ghost var x := if ptr != 0 then ptr - START_OFFSET else p - START_OFFSET;
    assert Excepted(h, op, p, x);
  }

  method DoAddPool(c: Control, start: nat, bytes: nat) returns (p: int)
    requires c.Valid() && Allowed(c.Snapshot(), Op.AddPool(start, bytes))
    modifies c, c.slBitmap, c.blocks
    ensures c.Valid() && Step(old(c.Snapshot()), Op.AddPool(start, bytes), p, c.Snapshot())
  {
    ghost var h, op := c.Snapshot(), Op.AddPool(start, bytes);
    p := c.AddPool(start, bytes);
    if p == 0 {
      KeepsNothing(h.B, 0, h.m);
    } else {
      UsedNewPool(h, start - 8, PoolBytes(bytes));
    }
    assert Excepted(h, op, p, 0);
  }

  /** A client's write to its own allocation is a step too: the allocator keeps nothing in there. */
  lemma StoreIsStep(h: Heap, ptr: int, a: int, v: int)
    requires HeapInv(h, {}) && Allowed(h, Store(ptr, a, v))
    ensures Step(h, Store(ptr, a, v), 0, h.(m := WriteByte(h.m, a, v)))
  {
    var b, h' := ptr - START_OFFSET, h.(m := WriteByte(h.m, a, v));
    assert BlockOk(h.B, b);
    WordInPayload(b, h.B[b].size, a);
    PayloadInv(h, b, h'.m);
    assert Excepted(h, Store(ptr, a, v), 0, b);
    KeepsNothing(h.B, b, h.m);
  }

  /** Whatever the allocator or its client does is a step: with this, each run of the code is a Run,
      and what is proved of every Run holds of the code. */
  method Do(c: Control, op: Op) returns (p: int)
    requires c.Valid() && Allowed(c.Snapshot(), op)
    modifies c, c.slBitmap, c.blocks
    ensures c.Valid() && Step(old(c.Snapshot()), op, p, c.Snapshot())
  {
    p := 0;
    match op {
      case Malloc(size) => p := DoMalloc(c, size);
      case Memalign(e, size) => p := DoMemalign(c, e, size);
      case Free(ptr) => DoFree(c, ptr);
      case Realloc(ptr, size) => p := DoRealloc(c, ptr, size);
      case AddPool(start, bytes) => p := DoAddPool(c, start, bytes);
      case Store(ptr, a, v) =>
        StoreIsStep(c.Snapshot(), ptr, a, v);
        c.ram := Ram(WriteByte(c.ram.words, a, v));
    }
  }

  lemma WordInPayload(b: int, size: nat, a: int)
    requires b % ALIGN_SIZE == 0 && size % ALIGN_SIZE == 0 && b + START_OFFSET <= a < b + START_OFFSET + size
    ensures b + START_OFFSET <= a - a % 8 <= b + START_OFFSET + size - 1
  {
  }

  // ---------- runs ----------

  datatype Event = Event(op: Op, p: int, after: Heap)

  /** The events happen one after the other from h on. */
  ghost predicate Run(h: Heap, events: seq<Event>)
    decreases |events|
  {
    if events == [] then HeapInv(h, {})
    else Step(h, events[0].op, events[0].p, events[0].after) && Run(events[0].after, events[1..])
  }

  function Final(h: Heap, events: seq<Event>): Heap
    decreases |events|
  {
    if events == [] then h else Final(events[0].after, events[1..])
  }

  /** The allocations that the client still holds after the events. */
  function Outstanding(S: set<int>, events: seq<Event>): set<int>
    decreases |events|
  {
    if events == [] then S else Outstanding(After(S, events[0].op, events[0].p), events[1..])
  }

  /** The pools after the events: those that were added join those at the beginning. */
  function AllPools(pools: map<int, int>, events: seq<Event>): map<int, int>
    decreases |events|
  {
    if events == [] then pools else AllPools(PoolsAfter(pools, events[0].op, events[0].p), events[1..])
  }

  /** The allocator's idea of what is live is the client's, the invariant holds at the end, the pools
      are those that were added, and none of them disappears or changes its size. Every step carries
      its part of this; that the code takes such steps is Do. */
  lemma {:induction false} RunKeepsAccounts(h: Heap, events: seq<Event>)
    requires Run(h, events)
    ensures HeapInv(Final(h, events), {})
    ensures Final(h, events).pools == AllPools(h.pools, events) && SamePools(h.pools, Final(h, events).pools)
    ensures Used(Final(h, events).B) == Outstanding(Used(h.B), events)
    decreases |events|
  {
    if events != [] {
      StepKeepsPools(h, events[0].op, events[0].p, events[0].after);
      RunKeepsAccounts(events[0].after, events[1..]);
    }
  }

  /** An allocation keeps its size and contents for as long as no operation names it, whatever is
      allocated, freed, resized and written around it. */
  lemma {:induction false} RunSpares(h: Heap, events: seq<Event>, b: int)
    requires Run(h, events) && b in Used(h.B)
    requires forall i :: 0 <= i < |events| ==> Target(events[i].op) != b
    ensures b in Used(Final(h, events).B) && Final(h, events).B[b].size == h.B[b].size
    ensures PayloadKept(h.m, Final(h, events).m, b, h.B[b].size)
    decreases |events|
  {
    if events != [] {
      var h1 := events[0].after;
      StepSpares(h, events[0].op, events[0].p, h1, b);
      forall i | 0 <= i < |events[1..]| ensures Target(events[1..][i].op) != b {
        assert events[1..][i] == events[i + 1];
      }
      RunSpares(h1, events[1..], b);
    }
  }

  /** Once everything has been freed, in whatever order, every pool is one free block again and can
      be removed. */
  lemma RunCoalesces(h: Heap, events: seq<Event>, p: int)
    requires Run(h, events) && Outstanding(Used(h.B), events) == {} && p in AllPools(h.pools, events)
    ensures var h', sentinel := Final(h, events), AllPools(h.pools, events)[p];
            && PoolUnused(h'.B, h'.pools, p) && h'.B[p].size == sentinel - p - 8
            && Span(h'.B, p, sentinel) == sentinel - p
            && (p in h.pools ==> sentinel == h.pools[p])
  {
    RunKeepsAccounts(h, events);
    var h' := Final(h, events);
    UnusedPoolIsOneBlock(h', p);
    PoolStart(h', p);
    BlocksFillPool(h', p);
  }

  /** Freeing a block right after its allocation restores the layout it was cut from. */
  lemma FreeUndoesMalloc(h: Heap, b: int, size: nat)
    requires HeapInv(h, {}) && b in h.B && h.B[b].free && Next(h.B, b) in h.B
    requires size % ALIGN_SIZE == 0 && BLOCK_SIZE_MIN <= size <= h.B[b].size
    ensures var B' := Allocate(h.B, b, size);
            b in B' && Mergeable(SetFree(B', b, true), b) && Release(B', b) == h.B
  {
    FreeNeighbours(h, b);
    var B' := Allocate(h.B, b, size);
    var B1 := SetFree(B', b, true);
    assert BlockOk(h.B, b);
    assert h.B[b].prev in h.B ==> BlockOk(h.B, h.B[b].prev);
    if CanSplit(h.B, b, size) {
      TilingSplit(h.B, b, size);
      assert h.B[b].prev != b + 8 + size;
      assert MergeNext(B1, b) == h.B;
    } else {
      assert B1 == h.B;
    }
  }

  // ---------- when requests are met ----------

  /** The bytes that a free block must have so that a request of this size finds it, whatever its class. */
  function Ample(size: nat): nat {
    if size <= SMALL_BLOCK_SIZE - ALIGN_SIZE then size else Enough(size + 7)
  }

  lemma AmpleIsEnough(size: nat, block: nat)
    requires 0 < size <= BLOCK_SIZE_MAX - ALIGN_SIZE && BLOCK_SIZE_MIN <= block && block % ALIGN_SIZE == 0
    requires Ample(size) <= block
    ensures Enough(AdjustRequestSize(size, ALIGN_SIZE)) <= block && AdjustRequestSize(size, ALIGN_SIZE) != 0
  {
    AdjustFitsBlock(size, block);
    AdjustIsLeast(size, ALIGN_SIZE);
  }

  /** tlsf_malloc answers a block whenever a free block has the bytes asked for, and a thirty-second part
      more of them from 249 bytes on. */
  lemma MallocSucceeds(h: Heap, size: nat, p: int, h': Heap, b: int)
    requires Step(h, Malloc(size), p, h') && 0 < size <= BLOCK_SIZE_MAX - ALIGN_SIZE
    requires b in h.B && h.B[b].free && Ample(size) <= h.B[b].size
    ensures p != 0
  {
    AdjustedSize(size);
    FreeNeighbours(h, b);
    AmpleIsEnough(size, h.B[b].size);
    EnoughFits(h.B, b, AdjustRequestSize(size, ALIGN_SIZE));
  }

  /** It answers null for 0 bytes, and whenever no free block has the bytes asked for. */
  lemma MallocRefuses(h: Heap, size: nat, p: int, h': Heap)
    requires Step(h, Malloc(size), p, h') && size <= SIZE_MOD - ALIGN_SIZE
    requires size == 0 || forall b {:trigger h.B[b]} :: b in h.B && h.B[b].free ==> h.B[b].size < size
    ensures p == 0
  {
    var adjust := AdjustRequestSize(size, ALIGN_SIZE);
    if adjust != 0 {
      AdjustCoversRequest(size);
      AdjustedSize(size);
      forall b ensures !Fits(h.B, b, adjust) {
        if Fits(h.B, b, adjust) { GoodFit(adjust, h.B[b].size); }
      }
    }
  }

  function AmpleAligned(size: nat, e: nat): nat {
    if e <= 3 then Ample(size) else Enough(BLOCK_SIZE_MIN + size + 2 * Pow2(e) + BLOCK_HEADER_SIZE)
  }

  /** tlsf_memalign answers a block whenever a free block has, besides the bytes asked for, twice the
      alignment and a header, and a thirty-second part more of all that; for alignments up to 8 the bytes
      that are enough for tlsf_malloc are. */
  lemma MemalignSucceeds(h: Heap, e: nat, size: nat, p: int, h': Heap, b: int)
    requires Step(h, Memalign(e, size), p, h') && 0 < size <= BLOCK_SIZE_MAX - ALIGN_SIZE
    requires b in h.B && h.B[b].free && AmpleAligned(size, e) <= h.B[b].size
    ensures p != 0 && p % Pow2(e) == 0
  {
    FreeNeighbours(h, b);
    if e <= 3 {
      Pow2AtMost8(e);
      AmpleIsEnough(size, h.B[b].size);
    } else {
      AlignedRequestSmall(size, e);
    }
    var request := AlignedRequestSize(AdjustRequestSize(size, ALIGN_SIZE), Pow2(e));
    AlignedRequestIsSize(size, Pow2(e), e);
    EnoughFits(h.B, b, request);
  }

  lemma AlignedRequestSmall(size: nat, e: nat)
    requires 3 < e < 63 && 0 < size <= BLOCK_SIZE_MAX - ALIGN_SIZE
    requires size + 2 * Pow2(e) + BLOCK_HEADER_SIZE + BLOCK_SIZE_MIN < BLOCK_SIZE_MAX
    ensures var request := AlignedRequestSize(AdjustRequestSize(size, ALIGN_SIZE), Pow2(e));
            0 < request <= size + 2 * Pow2(e) + BLOCK_HEADER_SIZE + BLOCK_SIZE_MIN
  {
    var adjust, align := AdjustRequestSize(size, ALIGN_SIZE), Pow2(e);
    AdjustCoversRequest(size);
    AdjustedSize(size);
    AdjustIsLeast(size, ALIGN_SIZE);
    Pow2AtLeast16(e);
    AlignedRequestIs(adjust, align);
    AdjustIsLeast(adjust + align + BLOCK_HEADER_SIZE, align);
    AlignUpExact(adjust + align + BLOCK_HEADER_SIZE, align);
    assert Covers(AlignUp(adjust + align + BLOCK_HEADER_SIZE, align), adjust + align + BLOCK_HEADER_SIZE, align);
  }

  /** tlsf_realloc leaves a block where it is exactly if its own bytes, or these with a free next block and
      its header, are as many as asked for. */
  lemma ReallocStays(h: Heap, ptr: int, size: nat, p: int, h': Heap)
    requires Step(h, Realloc(ptr, size), p, h') && ptr != 0 && 0 < size <= BLOCK_SIZE_MAX - ALIGN_SIZE
    ensures var b, B := ptr - START_OFFSET, h.B;
            && b in B && Next(B, b) in B
            && var n := Next(B, b);
               p == ptr <==> size <= B[b].size || (B[n].free && size <= B[b].size + 8 + B[n].size)
  {
    var b, n := ptr - START_OFFSET, Next(h.B, ptr - START_OFFSET);
    NextBlock(h, {}, b);
    AdjustFitsBlock(size, h.B[b].size);
    SumOf8(h.B[b].size, h.B[n].size);
    AdjustFitsBlock(size, h.B[b].size + 8 + h.B[n].size);
  }

  lemma SumOf8(x: nat, y: nat)
    requires x % ALIGN_SIZE == 0 && y % ALIGN_SIZE == 0
    ensures (x + 8 + y) % ALIGN_SIZE == 0
  {
  }

  /** It answers null only if the block cannot stay and no free block is large enough to move to. */
  lemma ReallocSucceeds(h: Heap, ptr: int, size: nat, p: int, h': Heap, c: int)
    requires Step(h, Realloc(ptr, size), p, h') && ptr != 0 && 0 < size <= BLOCK_SIZE_MAX - ALIGN_SIZE
    requires c in h.B && h.B[c].free && Ample(size) <= h.B[c].size
    ensures p != 0
  {
    AdjustedSize(size);
    FreeNeighbours(h, c);
    AmpleIsEnough(size, h.B[c].size);
    EnoughFits(h.B, c, AdjustRequestSize(size, ALIGN_SIZE));
  }

  /** What a pool gives out lies in the memory it was given, at any later time. */
  lemma PoolStaysInMemory(h: Heap, start: nat, bytes: nat, h1: Heap, events: seq<Event>, b: int)
    requires Step(h, AddPool(start, bytes), start, h1) && start != 0 && Run(h1, events)
    requires b in Used(Final(h1, events).B) && Final(h1, events).B[b].pool == start - 8
    ensures start < b + START_OFFSET && b + START_OFFSET + Final(h1, events).B[b].size < start + bytes
  {
    var h' := Final(h1, events);
    RunKeepsAccounts(h1, events);
    LiveAreDisjoint(h', b, b);
    PoolBytesExact(bytes);
    assert start - 8 in h1.pools;
  }

  // ---------- a request that cannot be met ----------

  /** A heap of one pool of 4080 bytes. */
  method SmallHeap() returns (c: Control)
    ensures fresh(c) && fresh(c.slBitmap) && fresh(c.blocks) && c.Valid()
    ensures c.layout.B == NewPool(map[], 0x3ff8, 4080)
  {
    c := new Control(0x1000, map[]);
    assert PoolBytes(4096) == 4080;
    var pool := c.AddPool(0x4000, 4096);
  }

  lemma SmallAllocation(b: int)
    ensures !NoneFits(NewPool(map[], 0x3ff8, 4080), 64)
    ensures BestFit(NewPool(map[], 0x3ff8, 4080), b, 64) ==>
              && b == 0x3ff8 && Next(NewPool(map[], 0x3ff8, 4080), b) in NewPool(map[], 0x3ff8, 4080)
              && Allocate(NewPool(map[], 0x3ff8, 4080), b, 64)[b] == Block(b, 0, 64, false)
  {
    var B := NewPool(map[], 0x3ff8, 4080);
    EnoughFits(B, 0x3ff8, 64);
    assert CanSplit(B, 0x3ff8, 64);
  }

  /** A heap with a live block of 64 bytes. */
  method SmallBlock() returns (c: Control, p: int)
    ensures fresh(c) && fresh(c.slBitmap) && fresh(c.blocks) && c.Valid()
    ensures p != 0 && c.Live(p) && c.layout.B[p - START_OFFSET].size == 64
  {
    c := SmallHeap();
    ghost var B := c.layout.B;
    SmallAllocation(0x3ff8);
    p := c.Malloc(64);
    SmallAllocation(p - START_OFFSET);
  }

  /** tlsf_realloc of that block to 2^32 bytes, a request that adjusts to 0, gives its pointer back, on
      a block of size 0; h is the heap before. */
  method OversizeExample() returns (c: Control, p: int, q: int, ghost h: Heap)
    ensures HeapInv(h, {}) && p - START_OFFSET in Used(h.B) && h.B[p - START_OFFSET].size == 64
    ensures AdjustRequestSize(0x1_0000_0000, ALIGN_SIZE) == 0
    ensures Next(h.B, p - START_OFFSET) in h.B
    ensures Oversized(h, p - START_OFFSET, c.ram.words, RestSize(h.B, p - START_OFFSET))
    ensures p != 0 && q == p && SizeOf(Read(c.ram.words, q - START_OFFSET + SIZE)) == 0
  {
    c, p := SmallBlock();
    h := c.Snapshot();
    q := c.ReallocOversize(p);
    OversizedReads0(h, p - START_OFFSET, c.ram.words, RestSize(h.B, p - START_OFFSET));
    AdjustsTo0();
  }

  lemma AdjustsTo0()
    ensures AdjustRequestSize(0x1_0000_0000, ALIGN_SIZE) == 0
  {
  }
}
