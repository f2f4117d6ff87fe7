/** The live allocations of a layout, and what each change of layout does to them. */
module TlsfLive {
  import opened TlsfBlocks
  import opened TlsfInvariant

  /** The used blocks that are not sentinels. */
  ghost function Used(B: Blocks): set<int> {
    set b | b in B && !B[b].free && B[b].size != 0
  }

  lemma UsedSetFree(B: Blocks, b: int, free: bool)
    requires b in B && B[b].size != 0
    ensures Used(SetFree(B, b, free)) == if free then Used(B) - {b} else Used(B) + {b}
  {
  }

  lemma UsedSplit(B: Blocks, b: int, size: nat)
    requires Tiling(B) && CanSplit(B, b, size) && Next(B, b) in B
    ensures Used(Split(B, b, size)) == Used(B)
  {
    SplitIsFresh(B, b, size);
    var B', r := Split(B, b, size), b + 8 + size;
    forall c ensures c in Used(B') <==> c in Used(B) {
      if c == r { assert c !in B; }
    }
  }

  lemma UsedMerge(B: Blocks, b: int)
    requires b in B && Next(B, b) in B && Next(B, Next(B, b)) in B && B[b].size != 0 && B[Next(B, b)].free
    ensures Used(Merge(B, b)) == Used(B)
  {
    var B', n := Merge(B, b), Next(B, b);
    forall c ensures c in Used(B') <==> c in Used(B) {
    }
  }

  lemma UsedAllocate(B: Blocks, b: int, size: nat)
    requires Tiling(B) && b in B && B[b].size != 0 && Next(B, b) in B
    ensures Used(Allocate(B, b, size)) == Used(B) + {b}
  {
    if CanSplit(B, b, size) {
      UsedSplit(B, b, size);
      UsedSetFree(Split(B, b, size), b, false);
    } else {
      UsedSetFree(B, b, false);
    }
  }

  lemma UsedWithGap(h: Heap, found: int, b: int)
    requires HeapInv(h, {}) && Placed(h.B, found, b) && h.B[found].free
    ensures Tiling(WithGap(h.B, found, b)) && Used(WithGap(h.B, found, b)) == Used(h.B)
  {
    FreeNeighbours(h, found);
    if b != found {
      assert CanSplit(h.B, found, b - found - 8);
      TilingSplit(h.B, found, b - found - 8);
      UsedSplit(h.B, found, b - found - 8);
    }
  }

  lemma UsedRelease(h: Heap, b: int)
    requires HeapInv(h, {}) && b in Used(h.B) && Mergeable(SetFree(h.B, b, true), b)
    ensures Used(Release(h.B, b)) == Used(h.B) - {b}
  {
    var B1 := SetFree(h.B, b, true);
    UsedSetFree(h.B, b, true);
    var p, B2 := MergedAt(B1, b), MergePrev(B1, b);
    assert BlockOk(h.B, b);
    assert Used(B2) == Used(B1) by {
      if PrevFree(B1, b) {
        assert BlockOk(h.B, p);
        UsedMerge(B1, p);
      }
    }
    if p in B2 && Next(B2, p) in B2 && B2[Next(B2, p)].free && Next(B2, Next(B2, p)) in B2 {
      assert B2[p].size != 0;
      UsedMerge(B2, p);
    }
  }

  lemma UsedShrink(h: Heap, b: int, size: nat)
    requires HeapInv(h, {}) && b in Used(h.B) && Next(h.B, b) in h.B
    ensures Used(Shrink(h.B, b, size)) == Used(h.B)
  {
    if CanSplit(h.B, b, size) {
      var B1, r := Split(h.B, b, size), b + 8 + size;
      UsedSplit(h.B, b, size);
      if r in B1 && Next(B1, r) in B1 && B1[Next(B1, r)].free && Next(B1, Next(B1, r)) in B1 {
        SplitIsFresh(h.B, b, size);
        UsedMerge(B1, r);
      }
    }
  }

  lemma UsedGrow(B: Blocks, b: int)
    requires b in B && B[b].size != 0 && Next(B, b) in B && Next(B, Next(B, b)) in B && B[Next(B, b)].free
    ensures Used(Grow(B, b)) == Used(B)
  {
    UsedMerge(B, b);
  }

  /** A moving realloc: block c is allocated, then block b released. */
  lemma UsedMove(h: Heap, h1: Heap, b: int, c: int, size: nat)
    requires HeapInv(h, {}) && HeapInv(h1, {}) && b in Used(h.B) && c in h.B && h.B[c].free && Next(h.B, c) in h.B
    requires h1.B == Allocate(h.B, c, size) && b in h1.B && Mergeable(SetFree(h1.B, b, true), b)
    ensures b != c && b in Used(h1.B) && Used(Release(h1.B, b)) == Used(h.B) - {b} + {c}
  {
    assert BlockOk(h.B, c);
    UsedAllocate(h.B, c, size);
    UsedRelease(h1, b);
  }

  lemma UsedNewPool(h: Heap, b: int, size: nat)
    requires RegionFree(h, b, size)
    ensures Used(NewPool(h.B, b, size)) == Used(h.B)
  {
    NewPoolFresh(h, b, size);
  }
}
