/** What the integrity checkers of the allocator look at: tlsf_check follows the lists and compares them
    with the bitmaps and the headers, tlsf_check_pool walks the headers of a pool. Nothing is assumed of
    the words but that these walks end. */
module TlsfCheck {
  import opened Bits
  import opened TlsfMapping
  import opened TlsfMemory
  import opened TlsfBlocks
  import opened TlsfLists
  import opened TlsfHeaders
  import opened TlsfInvariant

  // ---------- lists ----------

  /** The next_free link of b ends its list or leads on, to a block of the same list and a lower rank. */
  ghost predicate Advances(m: Memory, nul: int, L: Nodes, b: int)
    requires b in L
  {
    var next := Read(m, b + NEXT_FREE);
    Read(m, b + SIZE) >= 0 && (next != nul ==> next in L && L[next].cls == L[b].cls && L[next].rank < L[b].rank)
  }

  ghost predicate Starts(heads: seq<int>, nul: int, L: Nodes, k: int)
    requires |heads| == CLASS_COUNT && 0 <= k < CLASS_COUNT
  {
    heads[k] != nul ==> heads[k] in L && L[heads[k]].cls == k
  }

  /** Every list ends, wherever it leads. */
  ghost predicate ListsEnd(m: Memory, heads: seq<int>, nul: int, L: Nodes) {
    && |heads| == CLASS_COUNT && nul !in L
    && (forall b {:trigger Advances(m, nul, L, b)} :: b in L ==> Advances(m, nul, L, b))
    && (forall k {:trigger Starts(heads, nul, L, k)} :: 0 <= k < CLASS_COUNT ==> Starts(heads, nul, L, k))
  }

  /** What tlsf_check insists on for a block of list (i, j), by the words of its header and of the next. */
  ghost predicate ListedOk(m: Memory, b: int, i: int, j: int)
    requires Read(m, b + SIZE) >= 0
  {
    var size := SizeOf(Read(m, b + SIZE));
    var w, n := Read(m, b + SIZE), Read(m, b + 8 + size + SIZE);
    && IsFree(w) && !IsPrevFree(w) && !IsFree(n) && IsPrevFree(n)
    && BLOCK_SIZE_MIN <= size && MappingInsert(size) == (i, j)
  }

  /** All blocks from b on are as they should be on list (i, j). */
  ghost predicate ListOk(m: Memory, heads: seq<int>, nul: int, L: Nodes, b: int, i: int, j: int)
    requires ListsEnd(m, heads, nul, L) && (b == nul || b in L)
    decreases if b in L then L[b].rank + 1 else 0
  {
    b == nul ||
      (assert Advances(m, nul, L, b);
       ListedOk(m, b, i, j) && ListOk(m, heads, nul, L, Read(m, b + NEXT_FREE), i, j))
  }

  ghost predicate CellOk(m: Memory, flb: nat, sl: seq<int>, heads: seq<int>, nul: int, L: Nodes, i: int, j: int)
    requires ListsEnd(m, heads, nul, L) && |sl| == FL_INDEX_COUNT
    requires 0 <= i < FL_INDEX_COUNT && 0 <= j < SL_INDEX_COUNT && 0 <= sl[i]
  {
    assert Starts(heads, nul, L, SL_INDEX_COUNT * i + j);
    && (Bit(sl[i], j) ==> Bit(flb, i))
    && (Bit(sl[i], j) <==> heads[SL_INDEX_COUNT * i + j] != nul)
    && ListOk(m, heads, nul, L, heads[SL_INDEX_COUNT * i + j], i, j)
  }

  /** The words of both bitmaps are those of a 32-bit machine. */
  ghost predicate MapWords(flb: int, sl: seq<int>) {
    0 <= flb < WORD_MOD && |sl| == FL_INDEX_COUNT && forall i :: 0 <= i < |sl| ==> 0 <= sl[i] < WORD_MOD
  }

  /** What tlsf_check insists on for the first count lists, row by row. */
  ghost predicate CellsOk(m: Memory, flb: nat, sl: seq<int>, heads: seq<int>, nul: int, L: Nodes, count: nat)
    requires ListsEnd(m, heads, nul, L) && MapWords(flb, sl)
  {
    forall i, j {:trigger CellOk(m, flb, sl, heads, nul, L, i, j)} ::
      0 <= i < FL_INDEX_COUNT && 0 <= j < SL_INDEX_COUNT && SL_INDEX_COUNT * i + j < count ==>
        CellOk(m, flb, sl, heads, nul, L, i, j)
  }

  lemma OneMoreCell(m: Memory, flb: nat, sl: seq<int>, heads: seq<int>, nul: int, L: Nodes, i: int, j: int)
    requires ListsEnd(m, heads, nul, L) && MapWords(flb, sl)
    requires 0 <= i < FL_INDEX_COUNT && 0 <= j < SL_INDEX_COUNT
    ensures CellsOk(m, flb, sl, heads, nul, L, SL_INDEX_COUNT * i + j + 1)
            <==> CellsOk(m, flb, sl, heads, nul, L, SL_INDEX_COUNT * i + j) && CellOk(m, flb, sl, heads, nul, L, i, j)
  {
  }

  // ---------- what a passed check says ----------

  lemma BitmapWords(flb: int, sl: seq<int>, heads: seq<int>, nul: int)
    requires Bitmaps(flb, sl, heads, nul)
    ensures MapWords(flb, sl)
  {
    forall i | 0 <= i < |sl| ensures 0 <= sl[i] < WORD_MOD { assert SlOk(sl, heads, nul, i, 0); }
  }

  lemma InvEnds(h: Heap)
    requires HeapInv(h, {})
    ensures ListsEnd(h.m, h.heads, h.nul, h.L) && MapWords(h.flb, h.sl)
  {
    BitmapWords(h.flb, h.sl, h.heads, h.nul);
    forall b | b in h.L ensures Advances(h.m, h.nul, h.L, b) {
      assert NodeOk(h.m, h.heads, h.nul, h.L, b);
      ListedIsBlock(h, {}, b);
      assert HeaderOk(h.m, h.B, b);
    }
    forall k | 0 <= k < CLASS_COUNT ensures Starts(h.heads, h.nul, h.L, k) {
      assert HeadOk(h.m, h.heads, h.nul, h.L, k);
    }
  }

  /** What the checkers read in the header of a block. */
  lemma HeaderReads(m: Memory, B: Blocks, b: int)
    requires b in B && HeaderOk(m, B, b) && B[b].size % ALIGN_SIZE == 0
    ensures var w := Read(m, b + SIZE);
            && w >= 0 && SizeOf(w) == B[b].size && (IsFree(w) <==> B[b].free) && (IsPrevFree(w) <==> PrevFree(B, b))
  {
    MultipleOf4(B[b].size);
    PackedField(FieldOf(B, b), 0);
  }

  lemma InvListedOk(h: Heap, b: int, i: int, j: int)
    requires HeapInv(h, {}) && b in h.L && h.L[b].cls == SL_INDEX_COUNT * i + j && 0 <= j < SL_INDEX_COUNT
    ensures Read(h.m, b + SIZE) >= 0 && ListedOk(h.m, b, i, j)
  {
    ListedIsBlock(h, {}, b);
    FreeNeighbours(h, b);
    NextBlock(h, {}, b);
    HeaderReads(h.m, h.B, b);
    HeaderReads(h.m, h.B, Next(h.B, b));
    assert FiledOk(h.B, h.L, b);
    ClassInRange(h.B[b].size);
    ClassIs(h.B[b].size, i, j);
  }

  lemma ClassIs(size: nat, i: int, j: int)
    requires Class(size) == SL_INDEX_COUNT * i + j && 0 <= j < SL_INDEX_COUNT
    requires 0 <= MappingInsert(size).1 < SL_INDEX_COUNT
    ensures MappingInsert(size) == (i, j)
  {
  }

  lemma {:induction false} InvListOk(h: Heap, b: int, i: int, j: int)
    requires HeapInv(h, {}) && ListsEnd(h.m, h.heads, h.nul, h.L) && 0 <= j < SL_INDEX_COUNT
    requires b == h.nul || (b in h.L && h.L[b].cls == SL_INDEX_COUNT * i + j)
    ensures ListOk(h.m, h.heads, h.nul, h.L, b, i, j)
    decreases if b in h.L then h.L[b].rank + 1 else 0
  {
    if b != h.nul {
      assert Advances(h.m, h.nul, h.L, b);
      InvListedOk(h, b, i, j);
      InvListOk(h, Read(h.m, b + NEXT_FREE), i, j);
    }
  }

  /** Every state that satisfies the invariant passes. */
  lemma InvPasses(h: Heap)
    requires HeapInv(h, {})
    ensures ListsEnd(h.m, h.heads, h.nul, h.L) && MapWords(h.flb, h.sl)
    ensures CellsOk(h.m, h.flb, h.sl, h.heads, h.nul, h.L, CLASS_COUNT)
  {
    InvEnds(h);
    forall i, j | 0 <= i < FL_INDEX_COUNT && 0 <= j < SL_INDEX_COUNT
      ensures CellOk(h.m, h.flb, h.sl, h.heads, h.nul, h.L, i, j)
    {
      assert SlOk(h.sl, h.heads, h.nul, i, j) && FlOk(h.flb, h.sl, i);
      assert Starts(h.heads, h.nul, h.L, SL_INDEX_COUNT * i + j);
      ZeroIffNoBit(h.sl[i]);
      InvListOk(h, h.heads[SL_INDEX_COUNT * i + j], i, j);
    }
  }

  /** A first-level bit that is set for a row without a list. */
  ghost predicate StrayRowBit(flb: nat, sl: seq<int>, i: int)
    requires |sl| == FL_INDEX_COUNT && 0 <= i < 32
  {
    Bit(flb, i) && (i < FL_INDEX_COUNT ==> sl[i] == 0)
  }

  /** A passed check says that the bitmaps are exact but for first-level bits too many: these are what
      tlsf_check does not notice. */
  lemma PassedBitmaps(m: Memory, flb: nat, sl: seq<int>, heads: seq<int>, nul: int, L: Nodes)
    requires ListsEnd(m, heads, nul, L) && MapWords(flb, sl) && CellsOk(m, flb, sl, heads, nul, L, CLASS_COUNT)
    ensures Bitmaps(flb, sl, heads, nul) <==>
              forall i {:trigger StrayRowBit(flb, sl, i)} :: 0 <= i < 32 ==> !StrayRowBit(flb, sl, i)
  {
    forall i, j | 0 <= i < FL_INDEX_COUNT && 0 <= j < SL_INDEX_COUNT ensures SlOk(sl, heads, nul, i, j) {
      assert CellOk(m, flb, sl, heads, nul, L, i, j);
    }
    forall i | 0 <= i < 32 ensures FlOk(flb, sl, i) <==> !StrayRowBit(flb, sl, i) {
      if i < FL_INDEX_COUNT && sl[i] != 0 {
        ZeroIffNoBit(sl[i]);
        var j :| 0 <= j < 32 && Bit(sl[i], j);
        assert CellOk(m, flb, sl, heads, nul, L, i, j);
      }
    }
  }

  /** A control structure without a pool whose first row is marked: tlsf_check passes it. */
  lemma StrayRowBitPasses(nul: int)
    ensures var sl, heads := seq(FL_INDEX_COUNT, _ => 0), seq(CLASS_COUNT, _ => nul);
            && ListsEnd(map[], heads, nul, map[]) && MapWords(1, sl)
            && CellsOk(map[], 1, sl, heads, nul, map[], CLASS_COUNT) && StrayRowBit(1, sl, 0)
  {
    var sl, heads := seq(FL_INDEX_COUNT, _ => 0), seq(CLASS_COUNT, _ => nul);
    ZeroIffNoBit(0);
    forall i, j | 0 <= i < FL_INDEX_COUNT && 0 <= j < SL_INDEX_COUNT
      ensures CellOk(map[], 1, sl, heads, nul, map[], i, j)
    {
      assert Starts(heads, nul, map[], SL_INDEX_COUNT * i + j);
    }
  }

  // ---------- pools ----------

  /** The walk of a pool: the addresses of its headers, each one behind the block before, up to the
      header of size 0. */
  ghost predicate IsWalk(m: Memory, walk: seq<int>) {
    && walk != [] && SizeOf(Read(m, walk[|walk| - 1] + SIZE)) == 0
    && forall i {:trigger Leads(m, walk, i)} :: 0 <= i < |walk| - 1 ==> Leads(m, walk, i)
  }

  ghost predicate Leads(m: Memory, walk: seq<int>, i: int)
    requires 0 <= i < |walk| - 1
  {
    var size := SizeOf(Read(m, walk[i] + SIZE));
    size != 0 && walk[i + 1] == walk[i] + 8 + size
  }

  /** The prev-free flag of header i says what the block before it is; the first has none before. */
  ghost predicate PrevFlagOk(m: Memory, walk: seq<int>, i: int)
    requires 0 <= i < |walk|
  {
    IsPrevFree(Read(m, walk[i] + SIZE)) <==> i > 0 && IsFree(Read(m, walk[i - 1] + SIZE))
  }

  ghost predicate PrevFlagsOk(m: Memory, walk: seq<int>, count: nat)
    requires count <= |walk|
  {
    forall i {:trigger PrevFlagOk(m, walk, i)} :: 0 <= i < count ==> PrevFlagOk(m, walk, i)
  }

  /** The walk is at header i, which has this size; prevStatus says what the block before it is. */
  ghost predicate AtHeader(m: Memory, walk: seq<int>, i: int, block: int, size: int, prevStatus: bool) {
    && 0 <= i < |walk| && block == walk[i] && size == SizeOf(Read(m, block + SIZE))
    && prevStatus == (i > 0 && IsFree(Read(m, walk[i - 1] + SIZE)))
  }

  lemma NextHeader(m: Memory, walk: seq<int>, i: int, block: int, size: int, prevStatus: bool)
    requires IsWalk(m, walk) && AtHeader(m, walk, i, block, size, prevStatus) && size != 0
    ensures i + 1 < |walk| && walk[i + 1] == block + 8 + size
    ensures PrevFlagsOk(m, walk, i + 1)
            <==> PrevFlagsOk(m, walk, i) && prevStatus == IsPrevFree(Read(m, block + SIZE))
  {
    assert Leads(m, walk, i);
    assert PrevFlagOk(m, walk, i) <==> prevStatus == IsPrevFree(Read(m, block + SIZE));
  }

  /** The header of a block leads to the next one, whose prev-free flag says what the block is. */
  lemma InvLeads(h: Heap, b: int)
    requires HeapInv(h, {}) && b in h.B
    ensures SizeOf(Read(h.m, b + SIZE)) == h.B[b].size && (IsPrevFree(Read(h.m, b + SIZE)) <==> PrevFree(h.B, b))
    ensures h.B[b].size != 0 ==>
              && Next(h.B, b) in h.B && h.B[Next(h.B, b)].pool == h.B[b].pool
              && h.B[b].pool in h.pools && b < Next(h.B, b) <= h.pools[h.B[b].pool]
              && (IsPrevFree(Read(h.m, Next(h.B, b) + SIZE)) <==> IsFree(Read(h.m, b + SIZE)))
  {
    assert HeaderOk(h.m, h.B, b) && BlockOk(h.B, b);
    HeaderReads(h.m, h.B, b);
    if h.B[b].size != 0 {
      WalkStep(h, b);
      assert BlockOk(h.B, Next(h.B, b));
      HeaderReads(h.m, h.B, Next(h.B, b));
    }
  }

  lemma LastHeader(m: Memory, walk: seq<int>, i: int, block: int, prevStatus: bool)
    requires IsWalk(m, walk) && AtHeader(m, walk, i, block, 0, prevStatus)
    ensures i == |walk| - 1
  {
    assert i < |walk| - 1 ==> Leads(m, walk, i);
  }

  /** In a state that satisfies the invariant a pool has a walk, whose flags are right. */
  lemma {:induction false} InvWalk(h: Heap, b: int) returns (walk: seq<int>)
    requires HeapInv(h, {}) && b in h.B && h.B[b].pool in h.pools
    ensures IsWalk(h.m, walk) && walk[0] == b
    ensures forall i {:trigger PrevFlagOk(h.m, walk, i)} :: 1 <= i < |walk| ==> PrevFlagOk(h.m, walk, i)
    decreases h.pools[h.B[b].pool] - b
  {
    InvLeads(h, b);
    walk := [b];
    if h.B[b].size != 0 {
      var rest := InvWalk(h, Next(h.B, b));
      walk := LongerWalk(h.m, b, rest);
    }
  }

  lemma LongerWalk(m: Memory, b: int, rest: seq<int>) returns (walk: seq<int>)
    requires IsWalk(m, rest) && Leads(m, [b] + rest, 0)
    requires IsPrevFree(Read(m, rest[0] + SIZE)) <==> IsFree(Read(m, b + SIZE))
    requires forall i {:trigger PrevFlagOk(m, rest, i)} :: 1 <= i < |rest| ==> PrevFlagOk(m, rest, i)
    ensures IsWalk(m, walk) && walk[0] == b
    ensures forall i {:trigger PrevFlagOk(m, walk, i)} :: 1 <= i < |walk| ==> PrevFlagOk(m, walk, i)
  {
    walk := [b] + rest;
    forall i | 0 <= i < |walk| - 1 ensures Leads(m, walk, i) {
      assert i > 0 ==> walk[i] == rest[i - 1] && Leads(m, rest, i - 1);
    }
    forall i | 1 <= i < |walk| ensures PrevFlagOk(m, walk, i) {
      assert i > 1 ==> PrevFlagOk(m, rest, i - 1);
    }
  }

  lemma InvPoolPasses(h: Heap, p: int) returns (walk: seq<int>)
    requires HeapInv(h, {}) && p in h.pools
    ensures IsWalk(h.m, walk) && walk[0] == p && PrevFlagsOk(h.m, walk, |walk|)
  {
    PoolStart(h, p);
    InvLeads(h, p);
    walk := InvWalk(h, p);
  }
}
