/** The physical layout of the allocator's pools: which addresses are block headers, and how the
    blocks tile each pool. A block at address b owns the words from its size field at b + 8 up to
    and including the word at its next block's address, where that block keeps prev_phys_block. */
module TlsfBlocks {
  import opened TlsfMapping

  /** pool is the first block of the block's pool; prev is the physical predecessor, 0 for the
      first block. A block of size 0 is the sentinel that ends a pool. */
  datatype Block = Block(pool: int, prev: int, size: nat, free: bool)

  type Blocks = map<int, Block>

  function Next(B: Blocks, b: int): int
    requires b in B
  {
    b + BLOCK_HEADER_OVERHEAD + B[b].size
  }

  ghost predicate PrevFree(B: Blocks, b: int)
    requires b in B
  {
    B[b].prev in B && B[B[b].prev].free
  }

  // ---------- tiling ----------

  ghost predicate BlockOk(B: Blocks, b: int)
    requires b in B
  {
    var x := B[b];
    && 0 < b && b % ALIGN_SIZE == 0
    && x.size % ALIGN_SIZE == 0
    && (x.size == 0 ==> !x.free && x.prev != 0)
    && (x.size != 0 ==>
          && BLOCK_SIZE_MIN <= x.size < BLOCK_SIZE_MAX
          && Next(B, b) in B && B[Next(B, b)].prev == b && B[Next(B, b)].pool == x.pool)
    && (x.prev == 0 ==> x.pool == b)
    && (x.prev != 0 ==>
          && x.prev in B && B[x.prev].size != 0
          && Next(B, x.prev) == b && B[x.prev].pool == x.pool)
  }

  ghost predicate Apart(B: Blocks, b: int, c: int)
    requires b in B && c in B
  {
    b < c ==> Next(B, b) <= c
  }

  ghost predicate Tiling(B: Blocks) {
    && (forall b {:trigger BlockOk(B, b)} :: b in B ==> BlockOk(B, b))
    && (forall b, c {:trigger Apart(B, b, c)} :: b in B && c in B ==> Apart(B, b, c))
  }

  /** No two neighbours are both free, except next to a block that is off the lists. */
  ghost predicate CoalescedAt(B: Blocks, D: set<int>, b: int)
    requires b in B
  {
    B[b].free && b !in D && Next(B, b) in B && Next(B, b) !in D ==> !B[Next(B, b)].free
  }

  ghost predicate Coalesced(B: Blocks, D: set<int>) {
    forall b {:trigger CoalescedAt(B, D, b)} :: b in B ==> CoalescedAt(B, D, b)
  }

  // ---------- the three changes of layout ----------

  function SetFree(B: Blocks, b: int, free: bool): Blocks
    requires b in B
  {
    B[b := B[b].(free := free)]
  }

  /** Cut block b down to size bytes; the rest becomes a free block. */
  function Split(B: Blocks, b: int, size: nat): Blocks
    requires b in B && Next(B, b) in B && size + BLOCK_HEADER_OVERHEAD <= B[b].size
  {
    var r := b + BLOCK_HEADER_OVERHEAD + size;
    var n := Next(B, b);
    B[b := B[b].(size := size)]
     [r := Block(B[b].pool, b, B[b].size - size - BLOCK_HEADER_OVERHEAD, true)]
     [n := B[n].(prev := r)]
  }

  /** Let block b absorb its next block. */
  function Merge(B: Blocks, b: int): Blocks
    requires b in B && Next(B, b) in B && Next(B, Next(B, b)) in B
  {
    var n := Next(B, b);
    var m := Next(B, n);
    (B - {n})[b := B[b].(size := B[b].size + BLOCK_HEADER_OVERHEAD + B[n].size)]
             [m := B[m].(prev := b)]
  }

  lemma TilingSetFree(B: Blocks, b: int, free: bool)
    requires Tiling(B) && b in B && B[b].size != 0
    ensures Tiling(SetFree(B, b, free))
  {
    var B' := SetFree(B, b, free);
    forall c | c in B' ensures BlockOk(B', c) { assert BlockOk(B, c); }
    forall c, d | c in B' && d in B' ensures Apart(B', c, d) { assert Apart(B, c, d); }
  }

  ghost predicate CanSplit(B: Blocks, b: int, size: nat) {
    && b in B && size % ALIGN_SIZE == 0 && BLOCK_SIZE_MIN <= size
    && BLOCK_HEADER_SIZE + size <= B[b].size
  }

  lemma SplitIsFresh(B: Blocks, b: int, size: nat)
    requires Tiling(B) && CanSplit(B, b, size)
    ensures BlockOk(B, b) && BlockOk(B, Next(B, b))
    ensures b + 8 + size !in B
  {
    assert BlockOk(B, b);
    assert BlockOk(B, Next(B, b));
    var r := b + 8 + size;
    assert r in B ==> Apart(B, b, r);
  }

  lemma SplitBlockOk(B: Blocks, b: int, size: nat, c: int)
    requires CanSplit(B, b, size) && Next(B, b) in B && b + 8 + size !in B
    requires BlockOk(B, b) && BlockOk(B, Next(B, b))
    requires c in Split(B, b, size) && (c in B ==> BlockOk(B, c))
    ensures BlockOk(Split(B, b, size), c)
  {
    if c in B {
      assert B[c].size != 0 && Next(B, c) == Next(B, b) ==> c == b;
    }
  }

  lemma SplitApart(B: Blocks, b: int, size: nat, c: int, d: int)
    requires Tiling(B) && CanSplit(B, b, size) && Next(B, b) in B && b + 8 + size !in B
    requires c in Split(B, b, size) && d in Split(B, b, size)
    ensures Apart(Split(B, b, size), c, d)
  {
    var r := b + 8 + size;
    if c == r {
      if d != r { assert Apart(B, b, d); }
    } else if d == r {
      assert Apart(B, c, b) && Apart(B, b, c);
    } else {
      assert Apart(B, c, d);
    }
  }

  lemma TilingSplit(B: Blocks, b: int, size: nat)
    requires Tiling(B) && CanSplit(B, b, size)
    ensures BlockOk(B, b) && BlockOk(B, Next(B, b))
    ensures b + 8 + size !in B
    ensures Tiling(Split(B, b, size))
  {
    SplitIsFresh(B, b, size);
    var B' := Split(B, b, size);
    forall c | c in B' ensures BlockOk(B', c) {
      if c in B { assert BlockOk(B, c); }
      SplitBlockOk(B, b, size, c);
    }
    forall c, d | c in B' && d in B' ensures Apart(B', c, d) {
      SplitApart(B, b, size, c, d);
    }
  }

  ghost predicate CanMerge(B: Blocks, b: int) {
    && b in B && B[b].size != 0 && Next(B, b) in B && B[Next(B, b)].size != 0
    && Next(B, Next(B, b)) in B
    && B[b].size + 8 + B[Next(B, b)].size < BLOCK_SIZE_MAX
  }

  lemma MergeBlockOk(B: Blocks, b: int, c: int)
    requires CanMerge(B, b)
    requires BlockOk(B, b) && BlockOk(B, Next(B, b)) && BlockOk(B, Next(B, Next(B, b)))
    requires c in Merge(B, b) && BlockOk(B, c)
    ensures BlockOk(Merge(B, b), c)
  {
    var n := Next(B, b);
    assert B[c].size != 0 && Next(B, c) == n ==> c == b;
    assert B[c].size != 0 && Next(B, c) == Next(B, n) ==> c == n;
  }

  lemma TilingMerge(B: Blocks, b: int)
    requires Tiling(B) && CanMerge(B, b)
    ensures BlockOk(B, b) && BlockOk(B, Next(B, b)) && BlockOk(B, Next(B, Next(B, b)))
    ensures Tiling(Merge(B, b))
  {
    assert BlockOk(B, b);
    var n := Next(B, b);
    assert BlockOk(B, n);
    assert BlockOk(B, Next(B, n));
    var B' := Merge(B, b);
    forall c | c in B' ensures BlockOk(B', c) {
      assert BlockOk(B, c);
      MergeBlockOk(B, b, c);
    }
    forall c, d | c in B' && d in B' ensures Apart(B', c, d) {
      assert Apart(B, c, d);
      if c == b {
        assert Apart(B, n, d);
      }
    }
  }
}
