/** tlsf_realloc of a live block to a size that adjust_request_size turns into 0: the block is split
    as if it were to keep no payload at all. What that does to memory, the invariant being lost. */
module TlsfOversize {
  import opened TlsfMapping
  import opened TlsfMemory
  import opened TlsfBlocks
  import opened TlsfLists
  import opened TlsfHeaders
  import opened TlsfInvariant

  /** A write to address a touches neither b's size field nor the payload of another used block. */
  ghost predicate Harmless(B: Blocks, b: int, a: int) {
    && a != b + SIZE
    && forall c {:trigger B[c]} ::
         c in B && !B[c].free && c != b ==> !(c + START_OFFSET <= a < c + START_OFFSET + B[c].size)
  }

  lemma HarmlessWrite(B: Blocks, b: int, m0: Memory, m: Memory, a: int, v: int)
    requires Keeps(B, b, m0, m) && Harmless(B, b, a)
    ensures Keeps(B, b, m0, m[a := v]) && Read(m[a := v], b + SIZE) == Read(m, b + SIZE)
  {
    forall c | c in B && !B[c].free && c != b ensures PayloadKept(m0, m[a := v], c, B[c].size) {
      assert PayloadKept(m0, m, c, B[c].size);
      forall i | c + START_OFFSET <= i < c + START_OFFSET + B[c].size ensures Read(m[a := v], i) == Read(m0, i) {
        assert Read(m, i) == Read(m0, i) && i != a;
      }
    }
  }

  lemma OwnWord(B: Blocks, b: int, a: int)
    requires Tiling(B) && b in B && b + START_OFFSET <= a < b + START_OFFSET + B[b].size
    ensures Harmless(B, b, a)
  {
    forall c | c in B && !B[c].free && c != b ensures !(c + START_OFFSET <= a < c + START_OFFSET + B[c].size) {
      assert BlockOk(B, b) && BlockOk(B, c) && Apart(B, b, c) && Apart(B, c, b);
    }
  }

  /** Link words of listed blocks and of block_null. */
  lemma LinkWord(h: Heap, b: int, x: int, a: int)
    requires HeapInv(h, {}) && b in h.B && !h.B[b].free && (x == h.nul || x in h.L)
    requires a == x + NEXT_FREE || a == x + PREV_FREE
    ensures Harmless(h.B, b, a) && !(b + START_OFFSET <= a < b + START_OFFSET + h.B[b].size)
    ensures forall c {:trigger h.B[c]} :: c in h.B ==> a != c + SIZE
  {
    if x != h.nul { ListedIsBlock(h, {}, x); }
    forall c | c in h.B
      ensures a != c + SIZE && (!h.B[c].free ==> !(c + START_OFFSET <= a < c + START_OFFSET + h.B[c].size))
    {
      assert BlockOk(h.B, c) && Away(h.B, h.nul, c);
      if x != h.nul { assert Apart(h.B, x, c) && Apart(h.B, c, x); }
    }
  }

  /** The last word of a free block, where the block after it finds its predecessor. */
  lemma LastWord(B: Blocks, b: int, n: int)
    requires Tiling(B) && b in B && !B[b].free && n in B && B[n].free && B[n].size != 0
    ensures Harmless(B, b, Next(B, n)) && Next(B, n) != b + START_OFFSET
  {
    assert BlockOk(B, n) && BlockOk(B, b) && Apart(B, b, n) && Apart(B, n, b);
    forall c | c in B && !B[c].free && c != b
      ensures !(c + START_OFFSET <= Next(B, n) < c + START_OFFSET + B[c].size)
    {
      assert BlockOk(B, c) && Apart(B, c, n) && Apart(B, n, c);
    }
  }

  /** The damage: block b has size 0, the rest of it is a free block of its own of the given size,
      and the payloads of all other live blocks are as in h. */
  ghost predicate Oversized(h: Heap, b: int, m: Memory, size: int)
    requires b in h.B
  {
    && Keeps(h.B, b, h.m, m)
    && Read(m, b + SIZE) == Pack(FieldOf(h.B, b).(size := 0))
    && Read(m, b + 8 + SIZE) == Pack(SizeField(size, true, false))
  }

  /** The size of the free block that the rest becomes. */
  function RestSize(B: Blocks, b: int): int
    requires b in B && Next(B, b) in B
  {
    if B[Next(B, b)].free then B[b].size + B[Next(B, b)].size else B[b].size - 8
  }

  /** Every list starts at a listed block, or is empty. */
  ghost predicate HeadsListed(h: Heap, heads: seq<int>) {
    |heads| == CLASS_COUNT && forall k :: 0 <= k < CLASS_COUNT ==> heads[k] == h.nul || heads[k] in h.L
  }

  lemma ListsHaveHeads(h: Heap, m: Memory, heads: seq<int>, L: Nodes)
    requires Lists(m, heads, h.nul, L) && L.Keys <= h.L.Keys
    ensures HeadsListed(h, heads)
  {
    forall k | 0 <= k < CLASS_COUNT ensures heads[k] == h.nul || heads[k] in h.L {
      assert HeadOk(m, heads, h.nul, L, k);
    }
  }

  lemma RestFits(h: Heap, b: int)
    requires HeapInv(h, {}) && b in h.B && !h.B[b].free && BLOCK_HEADER_SIZE <= h.B[b].size
    ensures Next(h.B, b) in h.B
    ensures BLOCK_SIZE_MIN <= RestSize(h.B, b) < BLOCK_SIZE_MAX && RestSize(h.B, b) % ALIGN_SIZE == 0
  {
    NextBlock(h, {}, b);
    var n := Next(h.B, b);
    if h.B[n].free {
      MergeFits(h, {}, b);
      SumOf8(h.B[b].size, h.B[n].size);
    } else {
      SumOf8(h.B[b].size, -8);
    }
  }

  lemma SumOf8(x: int, y: int)
    requires x % 8 == 0 && y % 8 == 0
    ensures (x + y) % 8 == 0
  {
  }

  /** block_split for 0 bytes, and block_trim_used's repair. */
  lemma OversizeSplit(h: Heap, b: int, z: SizeField)
    requires HeapInv(h, {}) && b in h.B && !h.B[b].free && BLOCK_HEADER_SIZE <= h.B[b].size
    ensures Next(h.B, b) in h.B
    ensures var n := Next(h.B, b);
            var m := SplitUsedWords(h.m, b, 0, FieldOf(h.B, b), FieldOf(h.B, n), z);
            && Oversized(h, b, m, h.B[b].size - 8)
            && Read(m, n + SIZE) == Pack(FieldOf(h.B, n).(prevFree := true))
            && Lists(m, h.heads, h.nul, h.L)
  {
    NextBlock(h, {}, b);
    var n := Next(h.B, b);
    var m := SplitUsedWords(h.m, b, 0, FieldOf(h.B, b), FieldOf(h.B, n), z);
    assert TieOk(h.B, h.L, {}, b);
    assert WritesWithin(h.m, m, b + SIZE, n + SIZE);
    LocalLists(h, {}, b, m);
    LocalKeeps(h.m, m, h.B, b);
  }

  /** block_remove of the free block after the rest. */
  lemma OversizeUnlink(h: Heap, b: int, m: Memory, size: int, n: int, k: int)
    requires HeapInv(h, {}) && b in h.B && !h.B[b].free && BLOCK_HEADER_SIZE <= h.B[b].size
    requires Oversized(h, b, m, size) && Lists(m, h.heads, h.nul, h.L)
    requires n in h.L && h.L[n].cls == k && 0 <= k < CLASS_COUNT
    ensures Oversized(h, b, RemoveLinks(m, n), size)
    ensures n in h.B && Read(RemoveLinks(m, n), n + SIZE) == Read(m, n + SIZE)
    ensures HeadsListed(h, RemoveHead(m, h.heads, n, k))
  {
    assert NodeOk(m, h.heads, h.nul, h.L, n);
    var prev, next := Read(m, n + PREV_FREE), Read(m, n + NEXT_FREE);
    ListedIsBlock(h, {}, n);
    LinkWord(h, b, next, next + PREV_FREE);
    LinkWord(h, b, prev, prev + NEXT_FREE);
    assert h.B[n].free;
    HarmlessWrite(h.B, b, h.m, m, next + PREV_FREE, prev);
    HarmlessWrite(h.B, b, h.m, m[next + PREV_FREE := prev], prev + NEXT_FREE, next);
    RemoveKeepsLists(m, h.heads, h.nul, h.L, n);
    ListsHaveHeads(h, RemoveLinks(m, n), RemoveHead(m, h.heads, n, k), h.L - {n});
  }

  /** block_absorb of that block into the rest. */
  lemma OversizeAbsorb(h: Heap, b: int, m: Memory, n: int, y: SizeField)
    requires HeapInv(h, {}) && b in h.B && !h.B[b].free && BLOCK_HEADER_SIZE <= h.B[b].size
    requires n == Next(h.B, b) && n in h.B && h.B[n].free && h.B[n].size != 0 && y.size == h.B[n].size
    requires Oversized(h, b, m, h.B[b].size - 8)
    ensures var m' := AbsorbWords(m, b + 8, SizeField(h.B[b].size - 8, true, false), y);
            Oversized(h, b, m', h.B[b].size + h.B[n].size)
  {
    OwnWord(h.B, b, b + 8 + SIZE);
    LastWord(h.B, b, n);
    var v := Pack(SizeField(h.B[b].size + h.B[n].size, true, false));
    HarmlessWrite(h.B, b, h.m, m, b + 8 + SIZE, v);
    HarmlessWrite(h.B, b, h.m, m[b + 8 + SIZE := v], Next(h.B, n), b + 8);
  }

  /** The rest is not block_null. */
  lemma RestAway(h: Heap, b: int)
    requires HeapInv(h, {}) && b in h.B && BLOCK_HEADER_SIZE <= h.B[b].size
    ensures b + 8 != h.nul
  {
    assert Away(h.B, h.nul, b);
  }

  /** block_insert of the rest. */
  lemma OversizeInsert(h: Heap, b: int, m: Memory, size: int, current: int)
    requires HeapInv(h, {}) && b in h.B && !h.B[b].free && BLOCK_HEADER_SIZE <= h.B[b].size
    requires Oversized(h, b, m, size) && (current == h.nul || current in h.L)
    ensures Oversized(h, b, InsertLinks(m, h.nul, b + 8, current), size)
  {
    var r := b + 8;
    OwnWord(h.B, b, r + NEXT_FREE);
    OwnWord(h.B, b, r + PREV_FREE);
    LinkWord(h, b, current, current + PREV_FREE);
    var m1 := m[r + NEXT_FREE := current];
    var m2 := m1[r + PREV_FREE := h.nul];
    HarmlessWrite(h.B, b, h.m, m, r + NEXT_FREE, current);
    HarmlessWrite(h.B, b, h.m, m1, r + PREV_FREE, h.nul);
    HarmlessWrite(h.B, b, h.m, m2, current + PREV_FREE, r);
  }

  // ---------- what the client gets ----------

  lemma SumOf4(x: nat)
    requires x % ALIGN_SIZE == 0
    ensures (x - 8) % 4 == 0
  {
  }

  /** What a header says of its block's size. */
  lemma SizeReads(h: Heap, b: int)
    requires HeapInv(h, {}) && b in h.B && h.B[b].size != 0
    ensures SizeOf(Read(h.m, b + SIZE)) == h.B[b].size <= BLOCK_SIZE_MAX - ALIGN_SIZE
  {
    NextBlock(h, {}, b);
    PackedField(FieldOf(h.B, b), 0);
  }

  lemma OversizeReads(h: Heap, b: int, m: Memory)
    requires HeapInv(h, {}) && b in h.B && h.B[b].size != 0
    requires m == h.m || Read(m, b + SIZE) == Pack(FieldOf(h.B, b).(size := 0))
    ensures SizeOf(Read(m, b + SIZE)) <= BLOCK_SIZE_MAX - ALIGN_SIZE
  {
    SizeReads(h, b);
    PackedField(FieldOf(h.B, b).(size := 0), 0);
  }

  lemma OversizedReads0(h: Heap, b: int, m: Memory, size: int)
    requires b in h.B && Oversized(h, b, m, size)
    ensures SizeOf(Read(m, b + SIZE)) == 0
  {
    PackedField(FieldOf(h.B, b).(size := 0), 0);
  }

  /** No block is as large as a request above BLOCK_SIZE_MAX - ALIGN_SIZE bytes; tlsf_realloc takes
      the block as it is for large enough. */
  lemma OversizeIsNeverCovered(h: Heap, b: int, size: nat)
    requires HeapInv(h, {}) && b in h.B && !h.B[b].free && h.B[b].size != 0
    requires BLOCK_SIZE_MAX - ALIGN_SIZE < size < SIZE_MOD
    ensures h.B[b].size < size
    ensures Next(h.B, b) in h.B && FitsInPlace(h.B, b, AdjustRequestSize(size, ALIGN_SIZE))
  {
    assert BlockOk(h.B, b);
    AdjustedOversize(size);
  }

  lemma AdjustedOversize(size: nat)
    requires BLOCK_SIZE_MAX - ALIGN_SIZE < size < SIZE_MOD
    ensures AdjustRequestSize(size, ALIGN_SIZE) <= BLOCK_SIZE_MIN
  {
  }
}
