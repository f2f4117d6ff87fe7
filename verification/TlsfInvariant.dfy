/** The invariant of the whole allocator and what each change of layout does to it. */
module TlsfInvariant {
  import opened Bits
  import opened TlsfMapping
  import opened TlsfMemory
  import opened TlsfBlocks
  import opened TlsfLists
  import opened TlsfHeaders

  const CONTROL_SIZE: int := 6536  // sizeof(control_t)

  /** What the words of the pools and lists stand for. pools maps the first block of each pool to
      its sentinel. */
  datatype Layout = Layout(B: Blocks, L: Nodes, pools: map<int, int>)

  /** A snapshot of the allocator: memory, bitmaps, list heads, the address of control_t (whose
      first field is block_null), and the layout. */
  datatype Heap = Heap(
    m: Memory, flb: int, sl: seq<int>, heads: seq<int>, nul: int,
    B: Blocks, L: Nodes, pools: map<int, int>)

  /** A free block is on a list, unless it is one of the detached blocks D. */
  ghost predicate TieOk(B: Blocks, L: Nodes, D: set<int>, b: int) {
    && (b in L <==> b in B && B[b].free && b !in D)
    && (b in D ==> b in B && B[b].free)
  }

  ghost predicate Tied(B: Blocks, L: Nodes, D: set<int>) {
    forall b {:trigger TieOk(B, L, D, b)} :: TieOk(B, L, D, b)
  }

  /** A listed block is on the list of its size class. */
  ghost predicate FiledOk(B: Blocks, L: Nodes, b: int)
    requires b in L
  {
    b in B ==> L[b].cls == Class(B[b].size)
  }

  ghost predicate Filed(B: Blocks, L: Nodes) {
    forall b {:trigger FiledOk(B, L, b)} :: b in L ==> FiledOk(B, L, b)
  }

  ghost predicate InPool(B: Blocks, pools: map<int, int>, b: int)
    requires b in B
  {
    && B[b].pool in pools
    && B[b].pool <= b <= pools[B[b].pool]
    && (B[b].size == 0 <==> b == pools[B[b].pool])
  }

  ghost predicate PoolOk(B: Blocks, pools: map<int, int>, p: int)
    requires p in pools
  {
    && p in B && B[p].prev == 0 && B[p].pool == p
    && pools[p] in B && B[pools[p]].pool == p
    && pools[p] - p - 8 < BLOCK_SIZE_MAX
    && pools[p] + START_OFFSET <= SIZE_MOD
  }

  ghost predicate Pooled(B: Blocks, pools: map<int, int>) {
    && (forall b {:trigger InPool(B, pools, b)} :: b in B ==> InPool(B, pools, b))
    && (forall p {:trigger PoolOk(B, pools, p)} :: p in pools ==> PoolOk(B, pools, p))
  }

  /** No block owns a word of the control structure. */
  ghost predicate Away(B: Blocks, nul: int, b: int)
    requires b in B
  {
    Next(B, b) + BLOCK_HEADER_OVERHEAD <= nul || nul + CONTROL_SIZE <= b + SIZE
  }

  ghost predicate ClearOfControl(B: Blocks, nul: int) {
    && 0 < nul && nul % ALIGN_SIZE == 0
    && forall b {:trigger Away(B, nul, b)} :: b in B ==> Away(B, nul, b)
  }

  ghost predicate HeapInv(h: Heap, D: set<int>) {
    && Tiling(h.B)
    && Headers(h.m, h.B)
    && Lists(h.m, h.heads, h.nul, h.L)
    && Bitmaps(h.flb, h.sl, h.heads, h.nul)
    && Tied(h.B, h.L, D)
    && Filed(h.B, h.L)
    && Pooled(h.B, h.pools)
    && ClearOfControl(h.B, h.nul)
    && Coalesced(h.B, D)
  }

  // ---------- listed blocks ----------

  lemma ListedIsBlock(h: Heap, D: set<int>, b: int)
    requires HeapInv(h, D) && b in h.L
    ensures b in h.B && h.B[b].free && h.B[b].size != 0 && b !in D
    ensures BlockOk(h.B, b)
  {
    assert TieOk(h.B, h.L, D, b) && BlockOk(h.B, b);
  }

  lemma MultipleOf4(x: nat)
    ensures x % ALIGN_SIZE == 0 ==> x % 4 == 0
  {
  }

  /** The next block of a block that is not a sentinel. */
  lemma NextBlock(h: Heap, D: set<int>, b: int)
    requires HeapInv(h, D) && b in h.B && h.B[b].size != 0
    ensures BlockOk(h.B, b) && Next(h.B, b) in h.B && BlockOk(h.B, Next(h.B, b))
    ensures HeaderOk(h.m, h.B, b) && HeaderOk(h.m, h.B, Next(h.B, b))
    ensures FieldOf(h.B, b).size % 4 == 0 && FieldOf(h.B, Next(h.B, b)).size % 4 == 0
    ensures h.B[Next(h.B, b)].prev == b && Next(h.B, b) !in h.pools
  {
    assert BlockOk(h.B, b) && HeaderOk(h.m, h.B, b);
    var n := Next(h.B, b);
    assert BlockOk(h.B, n) && HeaderOk(h.m, h.B, n);
    MultipleOf4(h.B[b].size);
    MultipleOf4(h.B[n].size);
    assert n in h.pools ==> PoolOk(h.B, h.pools, n);
  }

  // ---------- link writes ----------

  /** A write to a link word of a free block, or of block_null, touches no header and no payload of
      a used block. */
  lemma LinkWrite(h: Heap, x: int, a: int, v: int)
    requires Tiling(h.B) && Headers(h.m, h.B) && ClearOfControl(h.B, h.nul)
    requires x == h.nul || (x in h.B && h.B[x].free)
    requires a == x + NEXT_FREE || a == x + PREV_FREE
    ensures Headers(h.m[a := v], h.B) && Keeps(h.B, 0, h.m, h.m[a := v])
  {
    var m' := h.m[a := v];
    if x != h.nul { assert BlockOk(h.B, x); }
    forall c | c in h.B ensures HeaderOk(m', h.B, c) {
      assert HeaderOk(h.m, h.B, c) && BlockOk(h.B, c) && Away(h.B, h.nul, c);
      if x != h.nul { assert Apart(h.B, x, c) && Apart(h.B, c, x); }
    }
    forall c | c in h.B && !h.B[c].free && c != 0 ensures PayloadKept(h.m, m', c, h.B[c].size) {
      assert BlockOk(h.B, c) && Away(h.B, h.nul, c);
      if x != h.nul { assert Apart(h.B, x, c) && Apart(h.B, c, x); }
    }
  }

  lemma KeepsTwice(B: Blocks, m: Memory, m1: Memory, m2: Memory)
    requires Keeps(B, 0, m, m1) && Keeps(B, 0, m1, m2)
    ensures Keeps(B, 0, m, m2)
  {
    forall b | b in B && !B[b].free && b != 0 ensures PayloadKept(m, m2, b, B[b].size) {
      assert PayloadKept(m, m1, b, B[b].size) && PayloadKept(m1, m2, b, B[b].size);
    }
  }

  // ---------- list operations ----------

  /** The allocator after block b has left its list (bitmaps aside). */
  lemma Detach(h: Heap, D: set<int>, b: int)
    requires HeapInv(h, D) && b in h.L
    ensures var m' := RemoveLinks(h.m, b);
            Headers(m', h.B) && Keeps(h.B, 0, h.m, m')
    ensures Tied(h.B, h.L - {b}, D + {b}) && Filed(h.B, h.L - {b}) && Coalesced(h.B, D + {b})
  {
    assert NodeOk(h.m, h.heads, h.nul, h.L, b);
    var prev, next := Read(h.m, b + PREV_FREE), Read(h.m, b + NEXT_FREE);
    if next != h.nul { ListedIsBlock(h, D, next); }
    if prev != h.nul { ListedIsBlock(h, D, prev); }
    LinkWrite(h, next, next + PREV_FREE, prev);
    var h1 := h.(m := h.m[next + PREV_FREE := prev]);
    LinkWrite(h1, prev, prev + NEXT_FREE, next);
    KeepsTwice(h.B, h.m, h1.m, RemoveLinks(h.m, b));
    forall c ensures TieOk(h.B, h.L - {b}, D + {b}, c) {
      assert TieOk(h.B, h.L, D, c) && TieOk(h.B, h.L, D, b);
    }
    forall c | c in h.L - {b} ensures FiledOk(h.B, h.L - {b}, c) { assert FiledOk(h.B, h.L, c); }
    forall c | c in h.B ensures CoalescedAt(h.B, D + {b}, c) {
      assert CoalescedAt(h.B, D, c);
    }
  }

  /** Removal of a listed block, once the bitmaps follow the heads. */
  lemma RemoveInv(h: Heap, D: set<int>, b: int, k: int, flb: int, sl: seq<int>)
    requires HeapInv(h, D) && b in h.L && h.L[b].cls == k && 0 <= k < CLASS_COUNT
    requires Bitmaps(flb, sl, RemoveHead(h.m, h.heads, b, k), h.nul)
    ensures HeapInv(h.(m := RemoveLinks(h.m, b), flb := flb, sl := sl,
                       heads := RemoveHead(h.m, h.heads, b, k), L := h.L - {b}), D + {b})
    ensures Keeps(h.B, 0, h.m, RemoveLinks(h.m, b))
  {
    RemoveKeepsLists(h.m, h.heads, h.nul, h.L, b);
    Detach(h, D, b);
  }

  lemma ListSites(h: Heap, D: set<int>, b: int)
    requires HeapInv(h, D) && b in h.B && h.B[b].size != 0
    ensures b != h.nul && Spaced(h.L.Keys + {h.nul, b})
  {
    assert BlockOk(h.B, b) && Away(h.B, h.nul, b);
    forall c, d | c in h.L.Keys + {h.nul, b} && d in h.L.Keys + {h.nul, b} ensures LinksApart(c, d) {
      if c != h.nul && d != h.nul {
        if c != b { ListedIsBlock(h, D, c); }
        if d != b { ListedIsBlock(h, D, d); }
        assert Apart(h.B, c, d);
      } else if c != h.nul {
        if c != b { ListedIsBlock(h, D, c); }
        assert Away(h.B, h.nul, c);
      } else if d != h.nul {
        if d != b { ListedIsBlock(h, D, d); }
        assert Away(h.B, h.nul, d);
      }
    }
  }

  /** The allocator after detached block b has gone to the front of its list (bitmaps aside). */
  lemma Attach(h: Heap, D: set<int>, b: int)
    requires HeapInv(h, D) && b in D
    requires b in h.B && h.B[b].size != 0 && 0 <= Class(h.B[b].size) < CLASS_COUNT
    requires CoalescedAt(h.B, D - {b}, b) && (PrevFree(h.B, b) ==> h.B[b].prev in D)
    ensures var k := Class(h.B[b].size);
            var m' := InsertLinks(h.m, h.nul, b, h.heads[k]);
            && Headers(m', h.B) && Keeps(h.B, 0, h.m, m')
            && Lists(m', h.heads[k := b], h.nul, InsertNode(h.L, b, k, h.heads[k]))
            && Tied(h.B, InsertNode(h.L, b, k, h.heads[k]), D - {b})
            && Filed(h.B, InsertNode(h.L, b, k, h.heads[k]))
    ensures Coalesced(h.B, D - {b})
  {
    var k := Class(h.B[b].size);
    var current := h.heads[k];
    assert TieOk(h.B, h.L, D, b);
    ListSites(h, D, b);
    InsertKeepsLists(h.m, h.heads, h.nul, h.L, b, k);
    AttachWrites(h, D, b, k);
    var L' := InsertNode(h.L, b, k, current);
    forall c ensures TieOk(h.B, L', D - {b}, c) { assert TieOk(h.B, h.L, D, c); }
    forall c | c in L' ensures FiledOk(h.B, L', c) { assert c != b ==> FiledOk(h.B, h.L, c); }
    forall c | c in h.B ensures CoalescedAt(h.B, D - {b}, c) {
      assert CoalescedAt(h.B, D, c) && BlockOk(h.B, c);
    }
  }

  lemma AttachWrites(h: Heap, D: set<int>, b: int, k: int)
    requires HeapInv(h, D) && b in h.B && h.B[b].free && 0 <= k < CLASS_COUNT
    ensures var m' := InsertLinks(h.m, h.nul, b, h.heads[k]);
            Headers(m', h.B) && Keeps(h.B, 0, h.m, m')
  {
    var current := h.heads[k];
    assert HeadOk(h.m, h.heads, h.nul, h.L, k);
    if current != h.nul { ListedIsBlock(h, D, current); }
    LinkWrite(h, b, b + NEXT_FREE, current);
    var h1 := h.(m := h.m[b + NEXT_FREE := current]);
    LinkWrite(h1, b, b + PREV_FREE, h.nul);
    var h2 := h.(m := h1.m[b + PREV_FREE := h.nul]);
    LinkWrite(h2, current, current + PREV_FREE, b);
    KeepsTwice(h.B, h.m, h1.m, h2.m);
    KeepsTwice(h.B, h.m, h2.m, InsertLinks(h.m, h.nul, b, current));
  }

  // ---------- changes of layout ----------

  /** A change of layout inside block b leaves the lists alone if b is on none of them. */
  lemma LocalLists(h: Heap, D: set<int>, b: int, m': Memory)
    requires HeapInv(h, D) && b in h.B && h.B[b].size != 0 && b !in h.L
    requires WritesWithin(h.m, m', b + SIZE, Next(h.B, b) + SIZE)
    ensures Lists(m', h.heads, h.nul, h.L)
  {
    forall c | c in h.L
      ensures Read(m', c + NEXT_FREE) == Read(h.m, c + NEXT_FREE) && Read(m', c + PREV_FREE) == Read(h.m, c + PREV_FREE)
    {
      ListedIsBlock(h, D, c);
      LocalLinks(h.m, m', h.B, b, c);
    }
    SameLinks(h.m, m', h.heads, h.nul, h.L);
  }

  lemma SameLinks(m: Memory, m': Memory, heads: seq<int>, nul: int, L: Nodes)
    requires Lists(m, heads, nul, L)
    requires forall c {:trigger c in L} :: c in L ==>
               Read(m', c + NEXT_FREE) == Read(m, c + NEXT_FREE) && Read(m', c + PREV_FREE) == Read(m, c + PREV_FREE)
    ensures Lists(m', heads, nul, L)
  {
    forall c | c in L ensures NodeOk(m', heads, nul, L, c) {
      assert NodeOk(m, heads, nul, L, c);
    }
    forall k | 0 <= k < CLASS_COUNT ensures HeadOk(m', heads, nul, L, k) {
      assert HeadOk(m, heads, nul, L, k);
    }
  }

  lemma SameFiled(h: Heap, B': Blocks)
    requires Filed(h.B, h.L)
    requires forall c {:trigger c in h.L} :: c in h.L && c in B' ==> c in h.B && B'[c].size == h.B[c].size
    ensures Filed(B', h.L)
  {
    forall c | c in h.L ensures FiledOk(B', h.L, c) { assert FiledOk(h.B, h.L, c); }
  }

  function AfterMark(h: Heap, m': Memory, b: int, free: bool): Heap
    requires b in h.B
  {
    h.(m := m', B := SetFree(h.B, b, free))
  }

  /** Marking a used block free detaches it; marking a detached block used attaches nothing. */
  lemma MarkInv(h: Heap, D: set<int>, b: int, free: bool, m': Memory)
    requires HeapInv(h, D) && b in h.B && h.B[b].size != 0
    requires if free then !h.B[b].free else b in D
    requires WritesWithin(h.m, m', b + SIZE, Next(h.B, b) + SIZE)
    requires Read(m', b + SIZE) == Pack(FieldOf(h.B, b).(free := free))
    requires var n := Next(h.B, b);
             n in h.B && Read(m', n + SIZE) == Pack(FieldOf(h.B, n).(prevFree := free)) && (free ==> Read(m', n) == b)
    ensures HeapInv(AfterMark(h, m', b, free), if free then D + {b} else D - {b})
    ensures Keeps(h.B, b, h.m, m') && SameUsed(h.B, b, SetFree(h.B, b, free))
  {
    var h', D' := AfterMark(h, m', b, free), if free then D + {b} else D - {b};
    TilingSetFree(h.B, b, free);
    MarkHeaders(h.m, m', h.B, b, free);
    LocalKeeps(h.m, m', h.B, b);
    assert TieOk(h.B, h.L, D, b);
    LocalLists(h, D, b, m');
    forall c ensures TieOk(h'.B, h'.L, D', c) { assert TieOk(h.B, h.L, D, c); }
    SameFiled(h, h'.B);
    MarkPlaces(h, D, b, free);
    forall c | c in h'.B ensures CoalescedAt(h'.B, D', c) { assert CoalescedAt(h.B, D, c); }
  }

  /** The three words block_mark_as_free writes. */
  function MarkFreeWrites(m: Memory, b: int, n: int, x: SizeField, y: SizeField): Memory {
    m[n := b][n + SIZE := Pack(y.(prevFree := true))][b + SIZE := Pack(x.(free := true))]
  }

  lemma MarkFreeInv(h: Heap, D: set<int>, b: int)
    requires HeapInv(h, D) && b in h.B && h.B[b].size != 0 && !h.B[b].free && Next(h.B, b) in h.B
    ensures var n := Next(h.B, b);
            var m' := MarkFreeWrites(h.m, b, n, FieldOf(h.B, b), FieldOf(h.B, n));
            && HeapInv(AfterMark(h, m', b, true), D + {b})
            && Keeps(h.B, b, h.m, m') && SameUsed(h.B, b, SetFree(h.B, b, true))
  {
    NextBlock(h, D, b);
    var n := Next(h.B, b);
    var m' := MarkFreeWrites(h.m, b, n, FieldOf(h.B, b), FieldOf(h.B, n));
    assert WritesWithin(h.m, m', b + SIZE, n + SIZE);
    MarkInv(h, D, b, true, m');
  }

  lemma MarkPlaces(h: Heap, D: set<int>, b: int, free: bool)
    requires HeapInv(h, D) && b in h.B
    ensures Pooled(SetFree(h.B, b, free), h.pools) && ClearOfControl(SetFree(h.B, b, free), h.nul)
  {
    var B' := SetFree(h.B, b, free);
    forall c | c in B' ensures InPool(B', h.pools, c) && Away(B', h.nul, c) {
      assert InPool(h.B, h.pools, c) && Away(h.B, h.nul, c);
    }
    forall p | p in h.pools ensures PoolOk(B', h.pools, p) { assert PoolOk(h.B, h.pools, p); }
  }

  function AfterSplit(h: Heap, m': Memory, b: int, size: nat): Heap
    requires CanSplit(h.B, b, size) && Next(h.B, b) in h.B
  {
    h.(m := m', B := Split(h.B, b, size))
  }

  /** Splitting a block that is on no list gives a detached remainder. */
  lemma SplitInv(h: Heap, D: set<int>, b: int, size: nat, m': Memory)
    requires HeapInv(h, D) && CanSplit(h.B, b, size) && (h.B[b].free ==> b in D)
    requires WritesWithin(h.m, m', b + SIZE, Next(h.B, b) + SIZE)
    requires var n, r := Next(h.B, b), b + 8 + size;
             && n in h.B
             && Read(m', b + SIZE) == Pack(FieldOf(h.B, b).(size := size))
             && Read(m', r + SIZE) == Pack(SizeField(h.B[b].size - size - 8, true, h.B[b].free))
             && Read(m', n + SIZE) == Pack(FieldOf(h.B, n).(prevFree := true))
             && Read(m', n) == r && (h.B[b].free ==> Read(m', r) == b)
    ensures HeapInv(AfterSplit(h, m', b, size), D + {b + 8 + size})
    ensures Keeps(h.B, b, h.m, m') && SameUsed(h.B, b, Split(h.B, b, size))
  {
    var h', r := AfterSplit(h, m', b, size), b + 8 + size;
    TilingSplit(h.B, b, size);
    SplitHeaders(h.m, m', h.B, b, size);
    LocalKeeps(h.m, m', h.B, b);
    assert TieOk(h.B, h.L, D, b) && TieOk(h.B, h.L, D, r);
    LocalLists(h, D, b, m');
    forall c ensures TieOk(h'.B, h'.L, D + {r}, c) { assert TieOk(h.B, h.L, D, c); }
    SameFiled(h, h'.B);
    SplitPlaces(h, D, b, size);
    forall c | c in h'.B ensures CoalescedAt(h'.B, D + {r}, c) {
      if c != r { assert CoalescedAt(h.B, D, c) && BlockOk(h.B, c); }
    }
  }

  /** The words block_split writes, for a block with size field x whose next block has size field
      y, over whatever word z the new header's size field held: the new block inherits z's prev-free
      flag. */
  function SplitWords(m: Memory, b: int, size: nat, x: SizeField, y: SizeField, z: SizeField): Memory {
    var r, n, rest := b + 8 + size, b + 8 + x.size, x.size - size - 8;
    m[r + SIZE := Pack(z.(size := rest))]
     [b + SIZE := Pack(x.(size := size))]
     [n := r]
     [n + SIZE := Pack(y.(prevFree := true))]
     [r + SIZE := Pack(z.(size := rest, free := true))]
  }

  /** The repair of block_trim_free and block_trim_free_leading. */
  function SplitFreeWords(m: Memory, b: int, size: nat, x: SizeField, y: SizeField, z: SizeField): Memory {
    var r := b + 8 + size;
    SplitWords(m, b, size, x, y, z)[r := b][r + SIZE := Pack(SizeField(x.size - size - 8, true, true))]
  }

  /** The repair of block_trim_used. */
  function SplitUsedWords(m: Memory, b: int, size: nat, x: SizeField, y: SizeField, z: SizeField): Memory {
    SplitWords(m, b, size, x, y, z)[b + 8 + size + SIZE := Pack(SizeField(x.size - size - 8, true, false))]
  }

  lemma SplitFreeInv(h: Heap, D: set<int>, b: int, size: nat, z: SizeField)
    requires HeapInv(h, D) && CanSplit(h.B, b, size) && b in D && h.B[b].free && Next(h.B, b) in h.B
    ensures b + 8 + size !in D && BlockOk(h.B, b) && BlockOk(h.B, Next(h.B, b))
    ensures var m' := SplitFreeWords(h.m, b, size, FieldOf(h.B, b), FieldOf(h.B, Next(h.B, b)), z);
            && HeapInv(AfterSplit(h, m', b, size), D + {b + 8 + size})
            && Keeps(h.B, b, h.m, m') && SameUsed(h.B, b, Split(h.B, b, size))
  {
    NextBlock(h, D, b);
    TilingSplit(h.B, b, size);
    assert TieOk(h.B, h.L, D, b + 8 + size);
    var m' := SplitFreeWords(h.m, b, size, FieldOf(h.B, b), FieldOf(h.B, Next(h.B, b)), z);
    assert WritesWithin(h.m, m', b + SIZE, Next(h.B, b) + SIZE);
    SplitInv(h, D, b, size, m');
  }

  /** The free remainder of a split may go back on a list unless its own next block is free. */
  lemma SplitReady(h: Heap, D: set<int>, b: int, size: nat)
    requires HeapInv(h, D) && CanSplit(h.B, b, size) && Next(h.B, b) in h.B
    requires !h.B[Next(h.B, b)].free && (h.B[b].free ==> b in D) && b + 8 + size !in D
    ensures var r, B' := b + 8 + size, Split(h.B, b, size);
            && r in B' && B'[r].size != 0 && Tiling(B') && D + {r} - {r} == D
            && CoalescedAt(B', D, r) && (PrevFree(B', r) ==> B'[r].prev in D + {r})
  {
    TilingSplit(h.B, b, size);
    assert BlockOk(Split(h.B, b, size), b + 8 + size);
  }

  lemma SplitUsedInv(h: Heap, D: set<int>, b: int, size: nat, z: SizeField)
    requires HeapInv(h, D) && CanSplit(h.B, b, size) && !h.B[b].free && Next(h.B, b) in h.B
    ensures b + 8 + size !in D && BlockOk(h.B, b) && BlockOk(h.B, Next(h.B, b))
    ensures var m' := SplitUsedWords(h.m, b, size, FieldOf(h.B, b), FieldOf(h.B, Next(h.B, b)), z);
            && HeapInv(AfterSplit(h, m', b, size), D + {b + 8 + size})
            && Keeps(h.B, b, h.m, m') && SameUsed(h.B, b, Split(h.B, b, size))
            && PayloadKept(h.m, m', b, size)
  {
    NextBlock(h, D, b);
    TilingSplit(h.B, b, size);
    assert TieOk(h.B, h.L, D, b + 8 + size);
    var m' := SplitUsedWords(h.m, b, size, FieldOf(h.B, b), FieldOf(h.B, Next(h.B, b)), z);
    assert WritesWithin(h.m, m', b + SIZE, Next(h.B, b) + SIZE);
    SplitInv(h, D, b, size, m');
  }

  lemma SplitPlaces(h: Heap, D: set<int>, b: int, size: nat)
    requires HeapInv(h, D) && CanSplit(h.B, b, size) && Next(h.B, b) in h.B
    ensures Pooled(Split(h.B, b, size), h.pools) && ClearOfControl(Split(h.B, b, size), h.nul)
  {
    TilingSplit(h.B, b, size);
    var B', r := Split(h.B, b, size), b + 8 + size;
    assert InPool(h.B, h.pools, b) && Away(h.B, h.nul, b) && InPool(h.B, h.pools, Next(h.B, b));
    forall c | c in B' ensures InPool(B', h.pools, c) && Away(B', h.nul, c) {
      if c != r { assert InPool(h.B, h.pools, c) && Away(h.B, h.nul, c); }
    }
    forall p | p in h.pools ensures PoolOk(B', h.pools, p) {
      assert PoolOk(h.B, h.pools, p) && PoolOk(h.B, h.pools, B'[b].pool) && BlockOk(h.B, b);
    }
  }

  function AfterMerge(h: Heap, m': Memory, b: int): Heap
    requires b in h.B && Next(h.B, b) in h.B && Next(h.B, Next(h.B, b)) in h.B
  {
    h.(m := m', B := Merge(h.B, b))
  }

  /** Two neighbours that are not sentinels fit together into one block size. */
  lemma MergeFits(h: Heap, D: set<int>, b: int)
    requires HeapInv(h, D) && b in h.B && h.B[b].size != 0
    requires Next(h.B, b) in h.B && h.B[Next(h.B, b)].size != 0
    ensures CanMerge(h.B, b)
  {
    NextBlock(h, D, b);
    var n := Next(h.B, b);
    NextBlock(h, D, n);
    assert InPool(h.B, h.pools, b) && InPool(h.B, h.pools, Next(h.B, n));
    assert PoolOk(h.B, h.pools, h.B[b].pool);
  }

  /** Absorbing a detached next block. */
  lemma MergeInv(h: Heap, D: set<int>, b: int, m': Memory)
    requires HeapInv(h, D) && CanMerge(h.B, b) && (h.B[b].free ==> b in D) && Next(h.B, b) in D
    requires WritesWithin(h.m, m', b + SIZE, Next(h.B, Next(h.B, b)) + SIZE)
    requires var n := Next(h.B, b);
             var k := Next(h.B, n);
             && Read(m', b + SIZE) == Pack(FieldOf(h.B, b).(size := h.B[b].size + 8 + h.B[n].size))
             && Read(m', k + SIZE) == Pack(FieldOf(h.B, k).(prevFree := h.B[b].free))
             && (h.B[b].free ==> Read(m', k) == b)
    ensures HeapInv(AfterMerge(h, m', b), D - {Next(h.B, b)})
    ensures Keeps(h.B, b, h.m, m') && SameUsed(h.B, b, Merge(h.B, b))
  {
    var h', n := AfterMerge(h, m', b), Next(h.B, b);
    TilingMerge(h.B, b);
    MergeHeaders(h.m, m', h.B, b);
    MergeWrites(h, D, b, m');
    forall c ensures TieOk(h'.B, h'.L, D - {n}, c) {
      assert TieOk(h.B, h.L, D, c) && TieOk(h.B, h.L, D, n) && TieOk(h.B, h.L, D, b);
    }
    SameFiled(h, h'.B);
    MergePlaces(h, D, b);
    forall c | c in h'.B ensures CoalescedAt(h'.B, D - {n}, c) {
      assert CoalescedAt(h.B, D, c) && BlockOk(h.B, c);
      assert h.B[c].size != 0 && Next(h.B, c) == n ==> c == b;
    }
  }

  lemma MergeWrites(h: Heap, D: set<int>, b: int, m': Memory)
    requires HeapInv(h, D) && CanMerge(h.B, b) && (h.B[b].free ==> b in D) && Next(h.B, b) in D
    requires Tiling(Merge(h.B, b))
    requires WritesWithin(h.m, m', b + SIZE, Next(h.B, Next(h.B, b)) + SIZE)
    ensures Lists(m', h.heads, h.nul, h.L)
    ensures Keeps(h.B, b, h.m, m') && SameUsed(h.B, b, Merge(h.B, b))
  {
    var B', n := Merge(h.B, b), Next(h.B, b);
    assert TieOk(h.B, h.L, D, n) && TieOk(h.B, h.L, D, b);
    forall c | c in h.L
      ensures Read(m', c + NEXT_FREE) == Read(h.m, c + NEXT_FREE) && Read(m', c + PREV_FREE) == Read(h.m, c + PREV_FREE)
    {
      ListedIsBlock(h, D, c);
      LocalLinks(h.m, m', B', b, c);
    }
    SameLinks(h.m, m', h.heads, h.nul, h.L);
    LocalKeeps(h.m, m', B', b);
    forall c | c in h.B && !h.B[c].free && c != b ensures PayloadKept(h.m, m', c, h.B[c].size) {
      assert c in B' && PayloadKept(h.m, m', c, B'[c].size);
    }
  }

  lemma MergePlaces(h: Heap, D: set<int>, b: int)
    requires HeapInv(h, D) && CanMerge(h.B, b)
    ensures Pooled(Merge(h.B, b), h.pools) && ClearOfControl(Merge(h.B, b), h.nul)
  {
    TilingMerge(h.B, b);
    NextBlock(h, D, b);
    var B', n := Merge(h.B, b), Next(h.B, b);
    assert InPool(h.B, h.pools, n) && Away(h.B, h.nul, b) && Away(h.B, h.nul, n);
    assert InPool(h.B, h.pools, b) && InPool(h.B, h.pools, Next(h.B, n));
    forall c | c in B' ensures InPool(B', h.pools, c) && Away(B', h.nul, c) {
      assert InPool(h.B, h.pools, c) && Away(h.B, h.nul, c);
    }
    forall p | p in h.pools ensures PoolOk(B', h.pools, p) {
      assert PoolOk(h.B, h.pools, p) && InPool(h.B, h.pools, h.pools[p]);
    }
  }

  // ---------- coalescing ----------

  /** The words block_absorb writes: the size field of prev grows by raw addition, and the block
      after the merged one records its new predecessor. */
  function AbsorbWords(m: Memory, prev: int, x: SizeField, y: SizeField): Memory {
    var size := x.size + 8 + y.size;
    m[prev + SIZE := Pack(x.(size := size))][prev + 8 + size := prev]
  }

  /** Absorbing a detached free block into a detached free block. */
  lemma AbsorbInv(h: Heap, D: set<int>, b: int)
    requires HeapInv(h, D) && b in h.B && h.B[b].size != 0 && h.B[b].free && b in D
    requires Next(h.B, b) in D && Next(h.B, b) in h.B && h.B[Next(h.B, b)].size != 0
    ensures CanMerge(h.B, b)
    ensures var m' := AbsorbWords(h.m, b, FieldOf(h.B, b), FieldOf(h.B, Next(h.B, b)));
            && HeapInv(AfterMerge(h, m', b), D - {Next(h.B, b)})
            && Keeps(h.B, b, h.m, m') && SameUsed(h.B, b, Merge(h.B, b))
  {
    var n := Next(h.B, b);
    assert TieOk(h.B, h.L, D, n);
    NextBlock(h, D, b);
    NextBlock(h, D, n);
    MergeFits(h, D, b);
    var m' := AbsorbWords(h.m, b, FieldOf(h.B, b), FieldOf(h.B, n));
    MergeInv(h, D, b, m');
  }

  /** The words of block_merge_next and block_mark_as_used on a used block whose next one is free. */
  function GrowWords(m: Memory, b: int, x: SizeField, y: SizeField, z: SizeField): Memory {
    var size := x.size + 8 + y.size;
    AbsorbWords(m, b, x, y)[b + 8 + size + SIZE := Pack(z.(prevFree := false))]
                           [b + SIZE := Pack(x.(size := size, free := false))]
  }

  /** A used block absorbs its detached next block. */
  lemma GrowInv(h: Heap, D: set<int>, b: int)
    requires HeapInv(h, D) && b in h.B && h.B[b].size != 0 && !h.B[b].free
    requires Next(h.B, b) in D && Next(h.B, b) in h.B && h.B[Next(h.B, b)].size != 0
    ensures CanMerge(h.B, b) && BlockOk(h.B, b) && BlockOk(h.B, Next(h.B, b))
    ensures var n := Next(h.B, b);
            var m' := GrowWords(h.m, b, FieldOf(h.B, b), FieldOf(h.B, n), FieldOf(h.B, Next(h.B, n)));
            && HeapInv(AfterMerge(h, m', b), D - {n})
            && Keeps(h.B, b, h.m, m') && SameUsed(h.B, b, Merge(h.B, b))
            && PayloadKept(h.m, m', b, h.B[b].size)
  {
    var n := Next(h.B, b);
    NextBlock(h, D, b);
    NextBlock(h, D, n);
    MergeFits(h, D, b);
    var m' := GrowWords(h.m, b, FieldOf(h.B, b), FieldOf(h.B, n), FieldOf(h.B, Next(h.B, n)));
    MergeInv(h, D, b, m');
  }

  /** The previous block of a block that records a free one. */
  lemma PrevBlock(h: Heap, D: set<int>, b: int)
    requires HeapInv(h, D) && b in h.B && PrevFree(h.B, b)
    ensures var p := h.B[b].prev;
            && p in h.B && h.B[p].free && h.B[p].size != 0 && Next(h.B, p) == b
            && BlockOk(h.B, p) && BlockOk(h.B, b) && HeaderOk(h.m, h.B, p) && HeaderOk(h.m, h.B, b)
            && Read(h.m, b) == p && p != b && (p !in D ==> p in h.L)
  {
    var p := h.B[b].prev;
    assert BlockOk(h.B, b) && BlockOk(h.B, p) && HeaderOk(h.m, h.B, p) && HeaderOk(h.m, h.B, b);
    assert TieOk(h.B, h.L, D, p);
  }

  // ---------- the layout that a free leaves ----------

  ghost predicate Mergeable(B: Blocks, b: int) {
    && b in B && Next(B, b) in B
    && (PrevFree(B, b) ==> Next(B, B[b].prev) == b)
  }

  ghost function MergePrev(B: Blocks, b: int): Blocks
    requires Mergeable(B, b)
  {
    if PrevFree(B, b) then Merge(B, B[b].prev) else B
  }

  /** Where the merged block starts. */
  ghost function MergedAt(B: Blocks, b: int): int
    requires b in B
  {
    if PrevFree(B, b) then B[b].prev else b
  }

  ghost function MergeNext(B: Blocks, b: int): Blocks
    requires b in B && Next(B, b) in B
  {
    if B[Next(B, b)].free && Next(B, Next(B, b)) in B then Merge(B, b) else B
  }

  /** block_merge_prev after the removal of the previous block. */
  lemma MergePrevStep(h: Heap, h1: Heap, b: int, p: int)
    requires HeapInv(h, {b}) && b in h.B && h.B[b].size != 0 && h.B[b].free
    requires PrevFree(h.B, b) && p == h.B[b].prev
    requires h1.B == h.B && HeapInv(h1, {b} + {p}) && Keeps(h.B, 0, h.m, h1.m)
    ensures p in h.B && CanMerge(h.B, p) && Next(h.B, p) == b && BlockOk(h.B, p) && BlockOk(h.B, b)
    ensures HeaderOk(h1.m, h.B, p) && HeaderOk(h1.m, h.B, b)
    ensures var m' := AbsorbWords(h1.m, p, FieldOf(h.B, p), FieldOf(h.B, b));
            && HeapInv(AfterMerge(h1, m', p), {p})
            && Keeps(h.B, b, h.m, m') && SameUsed(h.B, b, Merge(h.B, p))
  {
    PrevBlock(h, {b}, b);
    PrevBlock(h1, {b} + {p}, b);
    AbsorbInv(h1, {b} + {p}, p);
    assert {b} + {p} - {b} == {p};
    KeepsFrom(h.B, b, h.m, h1.m, p, AbsorbWords(h1.m, p, FieldOf(h.B, p), FieldOf(h.B, b)));
  }

  /** Composition over a step that spares every used block and one inside a free block p. */
  lemma KeepsFrom(B: Blocks, x: int, m: Memory, m1: Memory, p: int, m2: Memory)
    requires Tiling(B) && Keeps(B, 0, m, m1) && Keeps(B, p, m1, m2) && p in B && B[p].free
    ensures Keeps(B, x, m, m2)
  {
    forall b | b in B && !B[b].free && b != x ensures PayloadKept(m, m2, b, B[b].size) {
      assert BlockOk(B, b);
      assert PayloadKept(m, m1, b, B[b].size) && PayloadKept(m1, m2, b, B[b].size);
    }
  }

  /** block_merge_next after the removal of the next block. */
  lemma MergeNextStep(h: Heap, h1: Heap, b: int)
    requires HeapInv(h, {b}) && b in h.B && h.B[b].size != 0 && h.B[b].free
    requires Next(h.B, b) in h.B && h.B[Next(h.B, b)].free
    requires h1.B == h.B && HeapInv(h1, {b} + {Next(h.B, b)}) && Keeps(h.B, 0, h.m, h1.m)
    ensures var n := Next(h.B, b);
            && CanMerge(h.B, b) && BlockOk(h.B, b) && BlockOk(h.B, n)
            && HeaderOk(h1.m, h.B, b) && HeaderOk(h1.m, h.B, n)
    ensures var m' := AbsorbWords(h1.m, b, FieldOf(h.B, b), FieldOf(h.B, Next(h.B, b)));
            && HeapInv(AfterMerge(h1, m', b), {b})
            && Keeps(h.B, b, h.m, m') && SameUsed(h.B, b, Merge(h.B, b))
  {
    var n := Next(h.B, b);
    NextBlock(h1, {b} + {n}, b);
    assert n != b;
    AbsorbInv(h1, {b} + {n}, b);
    assert {b} + {n} - {n} == {b};
    KeepsFrom(h.B, b, h.m, h1.m, b, AbsorbWords(h1.m, b, FieldOf(h.B, b), FieldOf(h.B, n)));
  }

  /** A free next block is on a list. */
  lemma FreeNextListed(h: Heap, D: set<int>, b: int)
    requires HeapInv(h, D) && b in h.B && h.B[b].size != 0 && Next(h.B, b) in h.B
    requires h.B[Next(h.B, b)].free && Next(h.B, b) !in D
    ensures Next(h.B, b) in h.L && h.B[Next(h.B, b)].size != 0
  {
    assert TieOk(h.B, h.L, D, Next(h.B, b)) && BlockOk(h.B, Next(h.B, b));
  }

  /** The layout after block b has been freed and coalesced with its neighbours. */
  ghost function Release(B: Blocks, b: int): Blocks
    requires b in B && Mergeable(SetFree(B, b, true), b)
  {
    var B1 := SetFree(B, b, true);
    var p, B2 := MergedAt(B1, b), MergePrev(B1, b);
    if p in B2 && Next(B2, p) in B2 then MergeNext(B2, p) else B2
  }

  lemma MergeableBlock(h: Heap, D: set<int>, b: int)
    requires HeapInv(h, D) && b in h.B && h.B[b].size != 0
    ensures Mergeable(h.B, b)
  {
    NextBlock(h, D, b);
    if PrevFree(h.B, b) { PrevBlock(h, D, b); }
  }

  /** After block_merge_prev the block before the merged one is used. */
  lemma MergedPrev(h: Heap, b: int)
    requires HeapInv(h, {b}) && b in h.B && h.B[b].free && h.B[b].size != 0 && Mergeable(h.B, b)
    ensures var p, B' := MergedAt(h.B, b), MergePrev(h.B, b);
            && p in B' && B'[p].free && B'[p].size != 0 && Next(B', p) in B' && !PrevFree(B', p)
  {
    NextBlock(h, {b}, b);
    if PrevFree(h.B, b) {
      PrevBlock(h, {b}, b);
      var p := h.B[b].prev;
      if PrevFree(h.B, p) { PrevBlock(h, {b}, p); }
      assert PrevFree(h.B, p) ==> CoalescedAt(h.B, {b}, h.B[p].prev);
    }
  }

  /** After block_merge_next the block after the merged one is used, and the one before is as before. */
  lemma MergedNext(h: Heap, b: int)
    requires HeapInv(h, {b}) && b in h.B && h.B[b].free && h.B[b].size != 0 && Next(h.B, b) in h.B
    ensures var B' := MergeNext(h.B, b);
            && b in B' && B'[b].free && B'[b].size != 0 && Next(B', b) in B' && !B'[Next(B', b)].free
            && (PrevFree(B', b) <==> PrevFree(h.B, b))
  {
    NextBlock(h, {b}, b);
    var n := Next(h.B, b);
    if h.B[n].free {
      NextBlock(h, {b}, n);
      assert CoalescedAt(h.B, {b}, n);
      assert h.B[b].prev != 0 ==> BlockOk(h.B, h.B[b].prev);
    }
  }

  lemma FreeKeeps(B: Blocks, b: int, m: Memory, B1: Blocks, m1: Memory, B2: Blocks, m2: Memory, p: int,
                  B3: Blocks, m3: Memory, m4: Memory)
    requires Keeps(B, b, m, m1) && SameUsed(B, b, B1)
    requires Keeps(B1, b, m1, m2) && SameUsed(B1, b, B2)
    requires p in B2 && B2[p].free && Keeps(B2, p, m2, m3) && SameUsed(B2, p, B3)
    requires Tiling(B3) && Keeps(B3, 0, m3, m4)
    ensures Keeps(B, b, m, m4) && SameUsed(B, b, B3)
  {
    KeepsTransitive(B, b, m, m1, B1, m2);
    SameUsedTransitive(B, b, B1, B2);
    forall c | c in B2 && !B2[c].free && c != b ensures PayloadKept(m2, m3, c, B2[c].size) {
      assert c != p;
    }
    KeepsTransitive(B, b, m, m2, B2, m3);
    assert SameUsed(B2, b, B3);
    SameUsedTransitive(B, b, B2, B3);
    KeepsThenAll(B, b, m, m3, B3, m4);
  }

  // ---------- search ----------

  lemma HeadIsBlock(h: Heap, k: int)
    requires HeapInv(h, {}) && 0 <= k < CLASS_COUNT && h.heads[k] != h.nul
    ensures h.heads[k] > 0 && h.heads[k] in h.L && h.L[h.heads[k]].cls == k
    ensures h.heads[k] in h.B && h.B[h.heads[k]].free && h.B[h.heads[k]].size != 0
    ensures Class(h.B[h.heads[k]].size) == k
  {
    assert HeadOk(h.m, h.heads, h.nul, h.L, k);
    ListedIsBlock(h, {}, h.heads[k]);
    assert FiledOk(h.B, h.L, h.heads[k]);
  }

  ghost function Above(L: Nodes, b: int): set<int>
    requires b in L
  {
    set c | c in L && L[c].rank > L[b].rank
  }

  /** The list of a listed block is not empty. */
  lemma {:induction false} ListedHasHead(h: Heap, b: int)
    requires Lists(h.m, h.heads, h.nul, h.L) && b in h.L
    ensures 0 <= h.L[b].cls < CLASS_COUNT && h.heads[h.L[b].cls] != h.nul
    decreases Above(h.L, b)
  {
    assert NodeOk(h.m, h.heads, h.nul, h.L, b);
    var prev := Read(h.m, b + PREV_FREE);
    if prev != h.nul {
      assert NodeOk(h.m, h.heads, h.nul, h.L, prev);
      assert b != h.nul && Read(h.m, prev + NEXT_FREE) == b;
      assert prev in Above(h.L, b) && prev !in Above(h.L, prev);
      assert Above(h.L, prev) <= Above(h.L, b);
      ListedHasHead(h, prev);
    }
  }

  /** Block b is free and as large as a search for this request demands. */
  ghost predicate Fits(B: Blocks, b: int, request: nat) {
    b in B && B[b].free && Threshold(request) <= B[b].size
  }

  ghost predicate NoneFits(B: Blocks, request: nat) {
    forall b {:trigger Fits(B, b, request)} :: !Fits(B, b, request)
  }

  /** The bytes of a free block that are enough for a request, whatever its class. */
  function Enough(request: nat): nat {
    if request < SMALL_BLOCK_SIZE then request else request + request / 32
  }

  /** A search for a request finds a block whenever some free block has a thirty-second part more. */
  lemma EnoughFits(B: Blocks, b: int, request: nat)
    requires request % ALIGN_SIZE == 0 && b in B && B[b].free && Enough(request) <= B[b].size
    ensures !NoneFits(B, request)
  {
    GoodFit(request, B[b].size);
    assert Fits(B, b, request);
  }

  /** A free block that fits is on a list from mapping_search's on, and that list is not empty. */
  lemma FittingIsListed(h: Heap, request: nat, b: int)
    requires HeapInv(h, {}) && request % ALIGN_SIZE == 0 && Fits(h.B, b, request)
    ensures var k := Class(h.B[b].size);
            0 <= k < CLASS_COUNT && h.heads[k] != h.nul && Class(SearchSize(request)) <= k
  {
    assert TieOk(h.B, h.L, {}, b) && FiledOk(h.B, h.L, b);
    ListedHasHead(h, b);
    GoodFit(request, h.B[b].size);
  }

  lemma NothingFound(h: Heap, request: nat)
    requires HeapInv(h, {}) && 0 < request < BLOCK_SIZE_MAX && request % ALIGN_SIZE == 0
    requires EmptyBetween(h.heads, h.nul, Class(SearchSize(request)), CLASS_COUNT)
    ensures NoneFits(h.B, request)
  {
    forall b ensures !Fits(h.B, b, request) {
      if Fits(h.B, b, request) { FittingIsListed(h, request, b); }
    }
  }

  lemma TooLarge(h: Heap, request: nat)
    requires HeapInv(h, {}) && Threshold(request) >= BLOCK_SIZE_MAX
    ensures NoneFits(h.B, request)
  {
    forall b ensures !Fits(h.B, b, request) {
      if b in h.B { assert BlockOk(h.B, b); }
    }
  }

  /** The block found fits, and no free block that fits is in an earlier class. */
  ghost predicate BestFit(B: Blocks, block: int, request: nat) {
    && Fits(B, block, request)
    && forall b {:trigger Fits(B, b, request)} :: Fits(B, b, request) ==> Class(B[block].size) <= Class(B[b].size)
  }

  /** The block is the first on the list of its class. */
  ghost predicate IsHead(h: Heap, b: int) {
    b in h.B && 0 <= Class(h.B[b].size) < |h.heads| && h.heads[Class(h.B[b].size)] == b
  }

  lemma FoundFits(h: Heap, request: nat, k: int)
    requires HeapInv(h, {}) && 0 < request < BLOCK_SIZE_MAX && request % ALIGN_SIZE == 0
    requires Class(SearchSize(request)) <= k < CLASS_COUNT && 0 <= k && h.heads[k] != h.nul
    requires EmptyBetween(h.heads, h.nul, Class(SearchSize(request)), k)
    ensures h.heads[k] in h.B && request <= h.B[h.heads[k]].size
    ensures BestFit(h.B, h.heads[k], request) && IsHead(h, h.heads[k])
  {
    HeadIsBlock(h, k);
    GoodFit(request, h.B[h.heads[k]].size);
    forall b | Fits(h.B, b, request) ensures k <= Class(h.B[b].size) {
      FittingIsListed(h, request, b);
    }
  }

  // ---------- the layout that an allocation leaves ----------

  /** Free block b becomes used, cut down to size bytes if the rest can stand as a block. */
  ghost function Allocate(B: Blocks, b: int, size: nat): Blocks
    requires b in B && Next(B, b) in B
  {
    SetFree(if CanSplit(B, b, size) then Split(B, b, size) else B, b, false)
  }

  /** A block as large as asked for, with less to spare than a block needs. */
  predicate Tight(size: nat, asked: nat) {
    asked <= size < asked + BLOCK_HEADER_SIZE
  }

  /** Before its removal from the lists a free block had used neighbours. */
  lemma FreeNeighbours(h: Heap, b: int)
    requires HeapInv(h, {}) && b in h.B && h.B[b].free
    ensures BlockOk(h.B, b) && h.B[b].size != 0 && Next(h.B, b) in h.B && !h.B[Next(h.B, b)].free
    ensures !PrevFree(h.B, b)
  {
    assert BlockOk(h.B, b) && CoalescedAt(h.B, {}, b);
    if PrevFree(h.B, b) { PrevBlock(h, {}, b); }
    assert PrevFree(h.B, b) ==> CoalescedAt(h.B, {}, h.B[b].prev);
  }

  lemma AllocateSize(B: Blocks, b: int, size: nat)
    requires b in B && Next(B, b) in B && size <= B[b].size && size % ALIGN_SIZE == 0 && BLOCK_SIZE_MIN <= size
    ensures var B' := Allocate(B, b, size);
            && b in B' && !B'[b].free
            && Tight(B'[b].size, size) && B'[b].size <= B[b].size
  {
  }

  /** Composition over a step that spares every used block and one that may write block x. */
  lemma KeepsFrom2(B: Blocks, x: int, m: Memory, m1: Memory, m2: Memory)
    requires Tiling(B) && Keeps(B, 0, m, m1) && Keeps(B, x, m1, m2)
    ensures Keeps(B, x, m, m2)
  {
    forall b | b in B && !B[b].free && b != x ensures PayloadKept(m, m2, b, B[b].size) {
      assert BlockOk(B, b);
      assert PayloadKept(m, m1, b, B[b].size) && PayloadKept(m1, m2, b, B[b].size);
    }
  }

  // ---------- aligned allocation ----------

  /** block_trim_free_leading: the first part of the block goes back on a list. */
  lemma LeadingReady(h: Heap, b: int, gap: nat)
    requires HeapInv(h, {b}) && b in h.B && h.B[b].free && !PrevFree(h.B, b)
    requires Next(h.B, b) in h.B && !h.B[Next(h.B, b)].free
    requires gap % ALIGN_SIZE == 0 && BLOCK_HEADER_SIZE <= gap && BLOCK_HEADER_SIZE + gap <= h.B[b].size
    ensures CanSplit(h.B, b, gap - 8) && b + gap != b
    ensures var r, B' := b + gap, Split(h.B, b, gap - 8);
            && b in B' && B'[b].size != 0 && Tiling(B')
            && r in B' && B'[r].free && B'[r].size == h.B[b].size - gap
            && Next(B', r) in B' && !B'[Next(B', r)].free
            && {b} + {r} - {b} == {r} && CoalescedAt(B', {r}, b) && !PrevFree(B', b)
  {
    TilingSplit(h.B, b, gap - 8);
    assert BlockOk(h.B, b);
    assert h.B[b].prev in h.B ==> BlockOk(h.B, h.B[b].prev);
  }

  /** Where an aligned allocation found its block and where it ends up: the gap in front, if any, is
      a free block of its own. */
  ghost predicate Placed(B: Blocks, found: int, b: int) {
    && found in B && Next(B, found) in B
    && (b != found ==>
          && BLOCK_HEADER_SIZE <= b - found && b - found + BLOCK_SIZE_MIN <= B[found].size
          && (b - found) % ALIGN_SIZE == 0)
  }

  ghost function WithGap(B: Blocks, found: int, b: int): Blocks
    requires Placed(B, found, b)
  {
    if b == found then B else Split(B, found, b - found - 8)
  }

  lemma KeepsOfFree(B: Blocks, p: int, x: int, m: Memory, m': Memory)
    requires Keeps(B, p, m, m') && p in B && B[p].free
    ensures Keeps(B, x, m, m')
  {
    forall b | b in B && !B[b].free && b != x ensures PayloadKept(m, m', b, B[b].size) { assert b != p; }
  }

  lemma AlignedKeeps(B: Blocks, found: int, b: int, m: Memory, m1: Memory, m2: Memory, B2: Blocks,
                     m3: Memory, B3: Blocks)
    requires Tiling(B) && found in B && B[found].free && Keeps(B, 0, m, m1)
    requires Keeps(B, found, m1, m2) && SameUsed(B, found, B2)
    requires Keeps(B2, b, m2, m3) && SameUsed(B2, b, B3)
    ensures Keeps(B, b, m, m3) && SameUsed(B, b, B3)
  {
    KeepsFrom(B, b, m, m1, found, m2);
    assert SameUsed(B, b, B2);
    KeepsTransitive(B, b, m, m2, B2, m3);
    SameUsedTransitive(B, b, B2, B3);
  }

  /** A block ends within the address space. */
  lemma BlockBelow(h: Heap, b: int)
    requires HeapInv(h, {}) && b in h.B && h.B[b].size != 0
    ensures b > 0 && b % ALIGN_SIZE == 0 && b + START_OFFSET + h.B[b].size <= SIZE_MOD
  {
    NextBlock(h, {}, b);
    assert InPool(h.B, h.pools, Next(h.B, b)) && PoolOk(h.B, h.pools, h.B[b].pool);
  }

  // ---------- reallocation ----------

  /** Writing to the payload of a used block is no business of the allocator's. */
  lemma PayloadInv(h: Heap, b: int, m': Memory)
    requires HeapInv(h, {}) && b in h.B && h.B[b].size != 0 && !h.B[b].free
    requires WritesWithin(h.m, m', b + START_OFFSET, b + START_OFFSET + h.B[b].size - 1)
    ensures HeapInv(h.(m := m'), {}) && Keeps(h.B, b, h.m, m')
  {
    PayloadHeaders(h.m, m', h.B, b);
    assert WritesWithin(h.m, m', b + SIZE, Next(h.B, b) + SIZE);
    LocalKeeps(h.m, m', h.B, b);
    assert TieOk(h.B, h.L, {}, b);
    LocalLists(h, {}, b, m');
  }

  /** Used block b cut down to size bytes, the rest merged with a free next block. */
  ghost function Shrink(B: Blocks, b: int, size: nat): Blocks
    requires b in B && Next(B, b) in B
  {
    if CanSplit(B, b, size) then
      var B1, r := Split(B, b, size), b + 8 + size;
      if r in B1 && Next(B1, r) in B1 then MergeNext(B1, r) else B1
    else B
  }

  /** Used block b extended over a free next block. */
  ghost function Grow(B: Blocks, b: int): Blocks
    requires b in B && Next(B, b) in B && Next(B, Next(B, b)) in B
  {
    Merge(B, b)
  }

  /** After the cut, the remainder and the block stand side by side, and merging the remainder with
      a free next block leaves it ready for its list. */
  lemma ShrinkMiddle(h: Heap, h1: Heap, b: int, size: nat)
    requires HeapInv(h, {}) && CanSplit(h.B, b, size) && Next(h.B, b) in h.B && !h.B[b].free
    requires h1.B == Split(h.B, b, size) && HeapInv(h1, {b + 8 + size})
    ensures var r, B1 := b + 8 + size, h1.B;
            && r in B1 && B1[r].free && B1[r].size != 0 && Next(B1, r) in B1
            && b in B1 && !B1[b].free && B1[b].size == size && b != r && b != 0
    ensures var r, B2 := b + 8 + size, MergeNext(h1.B, b + 8 + size);
            && B2 == Shrink(h.B, b, size)
            && r in B2 && B2[r].size != 0 && {r} - {r} == {}
            && CoalescedAt(B2, {r} - {r}, r) && !PrevFree(B2, r)
  {
    TilingSplit(h.B, b, size);
    MergedNext(h1, b + 8 + size);
  }

  /** The steps of block_trim_used after the split: m1 then merge to m2 then insertion to m3. */
  lemma ShrinkKeeps(B: Blocks, b: int, size: nat, m: Memory, B1: Blocks, m1: Memory, r: int, B2: Blocks,
                    m2: Memory, m3: Memory)
    requires Keeps(B, b, m, m1) && SameUsed(B, b, B1) && PayloadKept(m, m1, b, size)
    requires b in B1 && !B1[b].free && B1[b].size == size && b != r && b != 0
    requires r in B1 && B1[r].free && Keeps(B1, r, m1, m2) && SameUsed(B1, r, B2)
    requires Tiling(B2) && Keeps(B2, 0, m2, m3)
    ensures Keeps(B, b, m, m3) && SameUsed(B, b, B2)
    ensures b in B2 && !B2[b].free && B2[b].size == size && PayloadKept(m, m3, b, size)
  {
    KeepsOfFree(B1, r, b, m1, m2);
    KeepsTransitive(B, b, m, m1, B1, m2);
    SameUsedTransitive(B, b, B1, B2);
    KeepsThenAll(B, b, m, m2, B2, m3);
    assert PayloadKept(m1, m2, b, B1[b].size);
    assert b in B2;
    assert PayloadKept(m2, m3, b, B2[b].size);
  }

  /** Composition over a growing step, whose result B1 is trimmed afterwards. */
  lemma GrowKeeps(B: Blocks, b: int, m: Memory, m1: Memory, m2: Memory, B2: Blocks)
    requires Tiling(B) && b in B && !B[b].free
    requires Keeps(B, 0, m, m1) && Keeps(B, b, m1, m2) && PayloadKept(m1, m2, b, B[b].size)
    ensures Keeps(B, b, m, m2) && PayloadKept(m, m2, b, B[b].size)
  {
    KeepsFrom2(B, b, m, m1, m2);
    assert BlockOk(B, b);
    assert PayloadKept(m, m1, b, B[b].size);
  }

  /** The growing step after the removal of the next block. */
  lemma GrowStep(h: Heap, h1: Heap, b: int)
    requires HeapInv(h, {}) && b in h.B && h.B[b].size != 0 && !h.B[b].free
    requires Next(h.B, b) in h.B && h.B[Next(h.B, b)].free && h.B[Next(h.B, b)].size != 0
    requires h1.B == h.B && HeapInv(h1, {} + {Next(h.B, b)}) && Keeps(h.B, 0, h.m, h1.m)
    ensures var n := Next(h.B, b);
            && BlockOk(h.B, b) && BlockOk(h.B, n) && CanMerge(h.B, b) && BlockOk(h.B, Next(h.B, n))
            && HeaderOk(h1.m, h.B, b) && HeaderOk(h1.m, h.B, n) && HeaderOk(h1.m, h.B, Next(h.B, n))
    ensures var n := Next(h.B, b);
            var m' := GrowWords(h1.m, b, FieldOf(h.B, b), FieldOf(h.B, n), FieldOf(h.B, Next(h.B, n)));
            && HeapInv(AfterMerge(h1, m', b), {})
            && Keeps(h.B, b, h.m, m') && SameUsed(h.B, b, Merge(h.B, b))
            && PayloadKept(h.m, m', b, h.B[b].size)
  {
    var n := Next(h.B, b);
    GrowInv(h1, {} + {n}, b);
    NextBlock(h1, {} + {n}, b);
    NextBlock(h1, {} + {n}, n);
    assert {} + {n} - {n} == {};
    var m' := GrowWords(h1.m, b, FieldOf(h.B, b), FieldOf(h.B, n), FieldOf(h.B, Next(h.B, n)));
    GrowKeeps(h.B, b, h.m, h1.m, m', h.B);
  }

  /** The copy of realloc stays inside the new block and does not meet the old one. */
  lemma CopyPlaces(h: Heap, b: int, c: int, count: nat)
    requires HeapInv(h, {}) && b in h.B && c in h.B && b != c
    requires !h.B[b].free && h.B[b].size != 0 && h.B[c].size != 0 && count <= h.B[b].size && count <= h.B[c].size
    ensures (c + START_OFFSET) % 8 == 0
    ensures c + START_OFFSET + count <= b + START_OFFSET || b + START_OFFSET + count <= c + START_OFFSET
  {
    assert BlockOk(h.B, c) && Apart(h.B, b, c) && Apart(h.B, c, b);
  }

  lemma CopyInv(h: Heap, b: int, count: nat, m': Memory)
    requires HeapInv(h, {}) && b in h.B && h.B[b].size != 0 && !h.B[b].free && count <= h.B[b].size
    requires WritesWithin(h.m, m', b + START_OFFSET, b + START_OFFSET + count - 1)
    ensures HeapInv(h.(m := m'), {}) && Keeps(h.B, b, h.m, m')
  {
    assert WritesWithin(h.m, m', b + START_OFFSET, b + START_OFFSET + h.B[b].size - 1);
    PayloadInv(h, b, m');
  }

  /** No exception is made for a free block. */
  lemma SameUsedOfFree(B: Blocks, c: int, x: int, B': Blocks)
    requires SameUsed(B, c, B') && c in B && B[c].free
    ensures SameUsed(B, x, B')
  {
    forall d | d in B && !B[d].free && d != x ensures d in B' && !B'[d].free && B'[d].size == B[d].size {
      assert d in B';
    }
  }

  /** The three steps of a moving realloc: allocation of c, copy from b to c, release of b. */
  lemma MoveKeeps(B: Blocks, b: int, c: int, m: Memory, B1: Blocks, m1: Memory, m2: Memory, B3: Blocks,
                  m3: Memory, count: nat)
    requires Tiling(B) && b in B && !B[b].free && count <= B[b].size && c in B && B[c].free
    requires Keeps(B, c, m, m1) && SameUsed(B, c, B1)
    requires c in B1 && !B1[c].free && count <= B1[c].size && Tiling(B1) && B1[c].size % 8 == 0 && c % 8 == 0
    requires Keeps(B1, c, m1, m2) && SameBytes(m2, c + START_OFFSET, m1, b + START_OFFSET, count)
    requires Keeps(B1, b, m2, m3) && SameUsed(B1, b, B3)
    ensures Keeps(B, b, m, m3) && SameUsed(B, b, B3)
    ensures c in B3 && !B3[c].free && B3[c].size == B1[c].size
    ensures SameBytes(m3, c + START_OFFSET, m, b + START_OFFSET, count)
  {
    KeepsOfFree(B, c, b, m, m1);
    forall d | d in B && !B[d].free && d != b ensures PayloadKept(m, m3, d, B[d].size) {
      assert PayloadKept(m, m1, d, B[d].size);
      assert d in B1 && PayloadKept(m1, m2, d, B1[d].size) && PayloadKept(m2, m3, d, B1[d].size);
    }
    SameUsedOfFree(B, c, b, B1);
    SameUsedTransitive(B, b, B1, B3);
    assert c in B3;
    assert BlockOk(B, b) && PayloadKept(m, m1, b, B[b].size) && PayloadKept(m2, m3, c, B1[c].size);
    KeptBytes(m, m1, b, B[b].size, count);
    KeptBytes(m2, m3, c, B1[c].size, count);
    SameBytesTransitive(m2, c + START_OFFSET, m1, b + START_OFFSET, m, b + START_OFFSET, count);
    SameBytesTransitive(m3, c + START_OFFSET, m2, c + START_OFFSET, m, b + START_OFFSET, count);
  }

  /** The two steps of an in-place realloc. */
  lemma InPlaceKeeps(B: Blocks, b: int, m: Memory, B1: Blocks, m1: Memory, B2: Blocks, m2: Memory, cursize: nat)
    requires Keeps(B, b, m, m1) && SameUsed(B, b, B1) && PayloadKept(m, m1, b, cursize)
    requires Keeps(B1, b, m1, m2) && SameUsed(B1, b, B2)
    requires b in B2 && PayloadKept(m1, m2, b, B2[b].size)
    ensures Keeps(B, b, m, m2) && SameUsed(B, b, B2)
    ensures PayloadKept(m, m2, b, if cursize < B2[b].size then cursize else B2[b].size)
  {
    KeepsTransitive(B, b, m, m1, B1, m2);
    SameUsedTransitive(B, b, B1, B2);
  }

  /** A used block is large enough, or is once it has absorbed a free next block. */
  ghost predicate FitsInPlace(B: Blocks, b: int, adjust: nat)
    requires b in B && Next(B, b) in B
  {
    var n := Next(B, b);
    adjust <= B[b].size || (B[n].free && adjust <= B[b].size + 8 + B[n].size)
  }

  lemma KeepsNothing(B: Blocks, x: int, m: Memory)
    ensures Keeps(B, x, m, m) && SameUsed(B, x, B)
  {
  }

  lemma InPlaceBytes(h: Heap, b: int, m': Memory, size': nat, size: nat, adjust: nat)
    requires HeapInv(h, {}) && b in h.B && size < SIZE_MOD
    requires adjust == AdjustRequestSize(size, ALIGN_SIZE) && adjust != 0
    requires adjust <= size' && size' % 8 == 0
    requires PayloadKept(h.m, m', b, if h.B[b].size < size' then h.B[b].size else size')
    ensures size <= SIZE_MOD - ALIGN_SIZE ==>
              SameBytes(m', b + START_OFFSET, h.m, b + START_OFFSET, if h.B[b].size < size then h.B[b].size else size)
  {
    assert BlockOk(h.B, b);
    if size <= SIZE_MOD - ALIGN_SIZE {
      if size != 0 { AdjustCoversRequest(size); }
      var kept := if h.B[b].size < size' then h.B[b].size else size';
      KeptBytes(h.m, m', b, kept, if h.B[b].size < size then h.B[b].size else size);
    }
  }

  // ---------- pools ----------

  /** Nothing else owns a word of the region that a pool with first block b and the given size takes. */
  ghost predicate RegionFree(h: Heap, b: int, size: nat) {
    && 0 < b && b % ALIGN_SIZE == 0 && size % ALIGN_SIZE == 0 && BLOCK_SIZE_MIN <= size < BLOCK_SIZE_MAX
    && b + 8 + size + START_OFFSET <= SIZE_MOD
    && (h.nul + CONTROL_SIZE <= b + SIZE || b + 8 + size + START_OFFSET <= h.nul)
    && forall c {:trigger c in h.B} :: c in h.B ==>
         Next(h.B, c) + 8 <= b + SIZE || b + 8 + size + START_OFFSET <= c + SIZE
  }

  /** Neither the control structure nor any block owns a byte of this memory; no block is at address 0. */
  ghost predicate Unowned(h: Heap, start: int, bytes: int) {
    && 8 < start && start + bytes <= SIZE_MOD
    && (h.nul + CONTROL_SIZE <= start || start + bytes <= h.nul)
    && forall c {:trigger c in h.B} :: c in h.B ==> Next(h.B, c) + 8 <= start || start + bytes <= c + SIZE
  }

  /** A pool of one free block and its sentinel. */
  function NewPool(B: Blocks, b: int, size: nat): Blocks {
    var s := b + 8 + size;
    B[b := Block(b, 0, size, true)][s := Block(b, b, 0, false)]
  }

  lemma NewPoolFresh(h: Heap, b: int, size: nat)
    requires RegionFree(h, b, size)
    ensures b !in h.B && b + 8 + size !in h.B && b !in h.L.Keys * h.B.Keys
  {
  }

  lemma NewPoolTiling(h: Heap, b: int, size: nat)
    requires Tiling(h.B) && RegionFree(h, b, size)
    ensures Tiling(NewPool(h.B, b, size))
  {
    var B', s := NewPool(h.B, b, size), b + 8 + size;
    NewPoolFresh(h, b, size);
    forall c | c in B' ensures BlockOk(B', c) {
      if c != b && c != s { assert BlockOk(h.B, c); }
    }
    forall c, d | c in B' && d in B' ensures Apart(B', c, d) {
      if c in h.B && d in h.B { assert Apart(h.B, c, d); }
    }
  }

  /** The words of the pool's two headers. */
  function PoolWords(m: Memory, b: int, size: nat): Memory {
    var s := b + 8 + size;
    m[b + SIZE := Pack(SizeField(size, true, false))][s := b][s + SIZE := Pack(SizeField(0, false, true))]
  }

  lemma NewPoolHeaders(h: Heap, b: int, size: nat)
    requires Tiling(h.B) && Headers(h.m, h.B) && RegionFree(h, b, size)
    ensures Headers(PoolWords(h.m, b, size), NewPool(h.B, b, size))
  {
    var m', B', s := PoolWords(h.m, b, size), NewPool(h.B, b, size), b + 8 + size;
    NewPoolFresh(h, b, size);
    assert 0 in h.B ==> BlockOk(h.B, 0);
    forall c | c in B' ensures HeaderOk(m', B', c) {
      if c != b && c != s { assert HeaderOk(h.m, h.B, c) && BlockOk(h.B, c); }
    }
  }

  lemma NewPoolWords(h: Heap, b: int, size: nat)
    requires HeapInv(h, {}) && RegionFree(h, b, size)
    ensures var m' := PoolWords(h.m, b, size);
            Keeps(h.B, 0, h.m, m') && Lists(m', h.heads, h.nul, h.L)
  {
    var m' := PoolWords(h.m, b, size);
    forall c | c in h.B && !h.B[c].free && c != 0 ensures PayloadKept(h.m, m', c, h.B[c].size) {
    }
    forall c | c in h.L
      ensures Read(m', c + NEXT_FREE) == Read(h.m, c + NEXT_FREE) && Read(m', c + PREV_FREE) == Read(h.m, c + PREV_FREE)
    {
      ListedIsBlock(h, {}, c);
    }
    SameLinks(h.m, m', h.heads, h.nul, h.L);
  }

  lemma NewPoolPlaces(h: Heap, b: int, size: nat)
    requires HeapInv(h, {}) && RegionFree(h, b, size)
    ensures var B', pools' := NewPool(h.B, b, size), h.pools[b := b + 8 + size];
            Pooled(B', pools') && ClearOfControl(B', h.nul)
  {
    var B', pools', s := NewPool(h.B, b, size), h.pools[b := b + 8 + size], b + 8 + size;
    NewPoolFresh(h, b, size);
    assert b in h.pools ==> PoolOk(h.B, h.pools, b);
    forall c | c in B' ensures InPool(B', pools', c) && Away(B', h.nul, c) {
      if c != b && c != s { assert InPool(h.B, h.pools, c) && Away(h.B, h.nul, c); }
    }
    forall p | p in pools' ensures PoolOk(B', pools', p) {
      if p != b { assert PoolOk(h.B, h.pools, p); }
    }
  }

  function WithPool(h: Heap, b: int, size: nat): Heap {
    h.(m := PoolWords(h.m, b, size), B := NewPool(h.B, b, size), pools := h.pools[b := b + 8 + size])
  }

  /** The new pool's block, before it goes on its list. */
  lemma NewPoolInv(h: Heap, b: int, size: nat)
    requires HeapInv(h, {}) && RegionFree(h, b, size)
    ensures HeapInv(WithPool(h, b, size), {b})
  {
    var h', s := WithPool(h, b, size), b + 8 + size;
    NewPoolFresh(h, b, size);
    NewPoolTiling(h, b, size);
    NewPoolHeaders(h, b, size);
    NewPoolWords(h, b, size);
    NewPoolPlaces(h, b, size);
    assert TieOk(h.B, h.L, {}, b) && TieOk(h.B, h.L, {}, s);
    forall c ensures TieOk(h'.B, h.L, {b}, c) { assert TieOk(h.B, h.L, {}, c); }
    forall c | c in h.L ensures c != b && c != s { ListedIsBlock(h, {}, c); }
    SameFiled(h, h'.B);
    forall c | c in h'.B ensures CoalescedAt(h'.B, {b}, c) {
      if c != b && c != s { assert CoalescedAt(h.B, {}, c) && BlockOk(h.B, c); }
    }
  }

  /** The words tlsf_add_pool writes, in its order: the block's size field, the block's links, the
      sentinel. */
  function AddPoolWords(m: Memory, nul: int, b: int, size: nat, current: int): Memory {
    var s, linked := b + 8 + size, InsertLinks(m[b + SIZE := Pack(SizeField(size, true, false))], nul, b, current);
    linked[s := b][s + SIZE := Pack(SizeField(0, false, true))]
  }

  /** Writing the sentinel before the links would make no difference. */
  lemma PoolWordsCommute(h: Heap, b: int, size: nat, k: int)
    requires HeapInv(h, {}) && RegionFree(h, b, size) && 0 <= k < CLASS_COUNT
    ensures h.heads[k] + PREV_FREE != b + SIZE
    ensures AddPoolWords(h.m, h.nul, b, size, h.heads[k]) == InsertLinks(PoolWords(h.m, b, size), h.nul, b, h.heads[k])
  {
    var s, current := b + 8 + size, h.heads[k];
    assert HeadOk(h.m, h.heads, h.nul, h.L, k);
    if current != h.nul { ListedIsBlock(h, {}, current); }
    assert current + PREV_FREE != s && current + PREV_FREE != s + SIZE && current + PREV_FREE != b + SIZE;
    var w, v := Pack(SizeField(size, true, false)), Pack(SizeField(0, false, true));
    var n, p, c := b + NEXT_FREE, b + PREV_FREE, current + PREV_FREE;
    assert h.m[b + SIZE := w][n := current][p := h.nul][c := b][s := b][s + SIZE := v]
        == h.m[b + SIZE := w][s := b][s + SIZE := v][n := current][p := h.nul][c := b];
  }

  /** The allocator with a new pool, once the pool's block is on its list and the bitmaps follow. */
  lemma PoolAttached(h: Heap, b: int, size: nat, k: int, flb: int, sl: seq<int>)
    requires HeapInv(h, {}) && RegionFree(h, b, size) && 0 <= k < CLASS_COUNT && k == Class(size)
    requires Bitmaps(flb, sl, h.heads[k := b], h.nul)
    ensures var m' := AddPoolWords(h.m, h.nul, b, size, h.heads[k]);
            && HeapInv(Heap(m', flb, sl, h.heads[k := b], h.nul, NewPool(h.B, b, size),
                            InsertNode(h.L, b, k, h.heads[k]), h.pools[b := b + 8 + size]), {})
            && Keeps(h.B, 0, h.m, m') && SameUsed(h.B, 0, NewPool(h.B, b, size))
  {
    var w := WithPool(h, b, size);
    NewPoolFresh(h, b, size);
    NewPoolInv(h, b, size);
    NewPoolWords(h, b, size);
    PoolWordsCommute(h, b, size, k);
    assert 0 in w.B ==> BlockOk(w.B, 0);
    Attach(w, {b}, b);
    assert {b} - {b} == {};
    var m' := AddPoolWords(h.m, h.nul, b, size, h.heads[k]);
    forall c | c in h.B && !h.B[c].free && c != 0 ensures PayloadKept(h.m, m', c, h.B[c].size) {
      assert c in w.B && PayloadKept(h.m, w.m, c, h.B[c].size) && PayloadKept(w.m, m', c, w.B[c].size);
    }
  }

  /** An allocator with no pool: control_construct. */
  lemma EmptyInv(h: Heap)
    requires h.B == map[] && h.L == map[] && h.pools == map[] && 0 < h.nul && h.nul % ALIGN_SIZE == 0
    requires h.flb == 0 && |h.sl| == FL_INDEX_COUNT && |h.heads| == CLASS_COUNT
    requires forall f :: 0 <= f < FL_INDEX_COUNT ==> h.sl[f] == 0
    requires forall k :: 0 <= k < CLASS_COUNT ==> h.heads[k] == h.nul
    ensures HeapInv(h, {})
  {
    forall f, s | 0 <= f < FL_INDEX_COUNT && 0 <= s < SL_INDEX_COUNT ensures SlOk(h.sl, h.heads, h.nul, f, s) {
      BitOfZero(s);
    }
    forall f | 0 <= f < 32 ensures FlOk(h.flb, h.sl, f) { BitOfZero(f); }
  }

  /** The pool with first block b is one free block. */
  ghost predicate PoolUnused(B: Blocks, pools: map<int, int>, b: int) {
    && b in pools && b in B && B[b].free && Next(B, b) == pools[b]
  }

  function WithoutPool(h: Heap, b: int): Heap
    requires b in h.B
  {
    h.(B := h.B - {b, Next(h.B, b)}, pools := h.pools - {b})
  }

  lemma WithoutPoolLayout(h: Heap, b: int)
    requires HeapInv(h, {b}) && PoolUnused(h.B, h.pools, b)
    ensures var B' := WithoutPool(h, b).B;
            && Tiling(B') && Headers(h.m, B') && Pooled(B', h.pools - {b}) && ClearOfControl(B', h.nul)
  {
    var s := Next(h.B, b);
    var B', pools' := h.B - {b, s}, h.pools - {b};
    assert PoolOk(h.B, h.pools, b) && BlockOk(h.B, b) && BlockOk(h.B, s) && InPool(h.B, h.pools, s);
    forall c | c in B' ensures BlockOk(B', c) && HeaderOk(h.m, B', c) && InPool(B', pools', c) && Away(B', h.nul, c) {
      assert BlockOk(h.B, c) && HeaderOk(h.m, h.B, c) && InPool(h.B, h.pools, c) && Away(h.B, h.nul, c);
      NotInPool(h, b, c);
    }
    forall c, d | c in B' && d in B' ensures Apart(B', c, d) { assert Apart(h.B, c, d); }
    forall p | p in pools' ensures PoolOk(B', pools', p) {
      assert PoolOk(h.B, h.pools, p) && InPool(h.B, h.pools, h.pools[p]);
    }
  }

  /** The only blocks of an unused pool are its free block and its sentinel. */
  lemma NotInPool(h: Heap, b: int, c: int)
    requires HeapInv(h, {b}) && PoolUnused(h.B, h.pools, b) && c in h.B && c != b && c != Next(h.B, b)
    ensures h.B[c].pool != b && Next(h.B, b) in h.B && h.B[Next(h.B, b)].size == 0
    ensures h.B[c].prev != b && h.B[c].prev != Next(h.B, b)
    ensures h.B[c].size != 0 ==> Next(h.B, c) != b && Next(h.B, c) != Next(h.B, b)
  {
    var s := Next(h.B, b);
    assert PoolOk(h.B, h.pools, b) && InPool(h.B, h.pools, c) && InPool(h.B, h.pools, s);
    assert BlockOk(h.B, c) && BlockOk(h.B, b) && BlockOk(h.B, s) && Apart(h.B, b, c);
  }

  lemma WithoutPoolInv(h: Heap, b: int)
    requires HeapInv(h, {b}) && PoolUnused(h.B, h.pools, b)
    ensures HeapInv(WithoutPool(h, b), {})
  {
    var h', s := WithoutPool(h, b), Next(h.B, b);
    WithoutPoolLayout(h, b);
    assert TieOk(h.B, h.L, {b}, b) && BlockOk(h.B, b) && BlockOk(h.B, s);
    assert PoolOk(h.B, h.pools, b) && InPool(h.B, h.pools, s);
    forall c ensures TieOk(h'.B, h.L, {}, c) { assert TieOk(h.B, h.L, {b}, c); }
    SameFiled(h, h'.B);
    forall c | c in h'.B ensures CoalescedAt(h'.B, {}, c) {
      assert CoalescedAt(h.B, {b}, c) && BlockOk(h.B, c);
      NotInPool(h, b, c);
    }
  }

  lemma PoolEnds(h: Heap, b: int)
    requires HeapInv(h, {}) && PoolUnused(h.B, h.pools, b)
    ensures b in h.L && h.L[b].cls == Class(h.B[b].size) && h.B[b].size != 0 && h.B[b].size < BLOCK_SIZE_MAX
    ensures var s := Next(h.B, b);
            && s == h.pools[b] && s in h.B && h.B[s].size == 0 && !h.B[s].free
            && HeaderOk(h.m, h.B, b) && HeaderOk(h.m, h.B, s)
            && FieldOf(h.B, b).size % 4 == 0 && FieldOf(h.B, s).size % 4 == 0
  {
    assert BlockOk(h.B, b) && TieOk(h.B, h.L, {}, b) && FiledOk(h.B, h.L, b) && InPool(h.B, h.pools, h.pools[b]);
    NextBlock(h, {}, b);
    assert PoolOk(h.B, h.pools, b);
  }

  // ---------- walking a pool ----------

  lemma PoolStart(h: Heap, b: int)
    requires HeapInv(h, {}) && b in h.pools
    ensures b in h.B && h.B[b].pool == b && !PrevFree(h.B, b)
    ensures BlockOk(h.B, b) && HeaderOk(h.m, h.B, b) && FieldOf(h.B, b).size % 4 == 0
  {
    assert PoolOk(h.B, h.pools, b) && BlockOk(h.B, b) && HeaderOk(h.m, h.B, b);
    assert 0 in h.B ==> BlockOk(h.B, 0);
    MultipleOf4(h.B[b].size);
  }

  lemma WalkStep(h: Heap, b: int)
    requires HeapInv(h, {}) && b in h.B && h.B[b].size != 0
    ensures h.B[b].pool in h.pools && b < Next(h.B, b) <= h.pools[h.B[b].pool]
    ensures var n := Next(h.B, b);
            n in h.B && h.B[n].pool == h.B[b].pool && PrevFree(h.B, n) == h.B[b].free
    ensures HeaderOk(h.m, h.B, b) && HeaderOk(h.m, h.B, Next(h.B, b))
    ensures FieldOf(h.B, b).size % 4 == 0 && FieldOf(h.B, Next(h.B, b)).size % 4 == 0
  {
    NextBlock(h, {}, b);
    assert InPool(h.B, h.pools, b) && InPool(h.B, h.pools, Next(h.B, b));
  }
}
