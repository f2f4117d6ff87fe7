/** The allocator itself (sys/mm/tlsf.c): control_t with its bitmaps and list heads, and the
    functions that change it and the memory of its pools in place. */
module Tlsf {
  import opened Bits
  import opened TlsfMapping
  import opened TlsfMemory
  import opened TlsfBlocks
  import opened TlsfLists
  import opened TlsfHeaders
  import opened TlsfInvariant
  import opened TlsfLive
  import opened TlsfOversize
  import opened TlsfCheck

  class Control {
    const nul: int                 // the address of this control_t and of its block_null
    var ram: Ram
    var flBitmap: int
    const slBitmap: array<int>     // sl_bitmap[FL_INDEX_COUNT]
    const blocks: array<int>       // blocks[FL_INDEX_COUNT][SL_INDEX_COUNT], row by row
    ghost var layout: Layout

    ghost function Snapshot(): Heap
      reads this, slBitmap, blocks
    {
      Heap(ram.words, flBitmap, slBitmap[..], blocks[..], nul, layout.B, layout.L, layout.pools)
    }

    /** The invariant with the blocks of D off the lists. */
    ghost predicate Inv(D: set<int>)
      reads this, slBitmap, blocks
    {
      && slBitmap != blocks && slBitmap.Length == FL_INDEX_COUNT && blocks.Length == CLASS_COUNT
      && HeapInv(Snapshot(), D)
    }

    /** control_construct, at the address control in memory that holds the given words */
    constructor (control: nat, words: Memory)
      requires 0 < control && control % ALIGN_SIZE == 0
      ensures Inv({}) && layout == Layout(map[], map[], map[]) && nul == control
      ensures fresh(slBitmap) && fresh(blocks)
      ensures WritesWithin(words, ram.words, control + NEXT_FREE, control + PREV_FREE)
    {
      nul := control;
      ram := Ram(words[control + NEXT_FREE := control][control + PREV_FREE := control]);
      flBitmap := 0;
      slBitmap := new int[FL_INDEX_COUNT];
      blocks := new int[CLASS_COUNT];
      layout := Layout(map[], map[], map[]);
      new;
      for i := 0 to FL_INDEX_COUNT
        modifies slBitmap, blocks
        invariant forall f :: 0 <= f < i ==> slBitmap[f] == 0
        invariant forall k :: 0 <= k < SL_INDEX_COUNT * i ==> blocks[k] == nul
      {
        slBitmap[i] := 0;
        for j := 0 to SL_INDEX_COUNT
          modifies blocks
          invariant forall f :: 0 <= f < i + 1 ==> slBitmap[f] == 0
          invariant forall k :: 0 <= k < SL_INDEX_COUNT * i + j ==> blocks[k] == nul
        {
          blocks[SL_INDEX_COUNT * i + j] := nul;
        }
      }
      EmptyInv(Snapshot());
    }

    /** tlsf_create */
    static method Create(mem: nat, words: Memory) returns (tlsf: Control?)
      requires 0 < mem
      ensures tlsf == null <==> mem % ALIGN_SIZE != 0
      ensures tlsf != null ==> fresh(tlsf) && tlsf.Inv({}) && tlsf.nul == mem
      ensures tlsf != null ==> tlsf.layout == Layout(map[], map[], map[])
    {
      if mem % ALIGN_SIZE != 0 { return null; }
      tlsf := new Control(mem, words);
    }

    // ---------- the size field, through the bit operations of block_header_t ----------

    /** block_size */
    method BlockSize(block: int, ghost x: SizeField) returns (size: int)
      requires Read(ram.words, block + SIZE) == Pack(x) && x.size % 4 == 0
      ensures size == x.size
    {
      PackedField(x, 0);
      size := SizeOf(Read(ram.words, block + SIZE));
    }

    /** block_is_free */
    method BlockIsFree(block: int, ghost x: SizeField) returns (free: bool)
      requires Read(ram.words, block + SIZE) == Pack(x) && x.size % 4 == 0
      ensures free == x.free
    {
      PackedField(x, 0);
      free := IsFree(Read(ram.words, block + SIZE));
    }

    /** block_is_prev_free */
    method BlockIsPrevFree(block: int, ghost x: SizeField) returns (prevFree: bool)
      requires Read(ram.words, block + SIZE) == Pack(x) && x.size % 4 == 0
      ensures prevFree == x.prevFree
    {
      PackedField(x, 0);
      prevFree := IsPrevFree(Read(ram.words, block + SIZE));
    }

    /** block_set_size, on a field that may hold anything */
    method BlockSetSize(block: int, size: int, ghost x: SizeField)
      requires Read(ram.words, block + SIZE) == Pack(x) && x.size % 4 == 0 && size % 4 == 0
      modifies this`ram
      ensures ram.words == old(ram.words)[block + SIZE := Pack(x.(size := size))]
    {
      var w := Read(ram.words, block + SIZE);
      assert WithSize(w, size) == Pack(x.(size := size)) by { PackedField(x, size); }
      ram := Ram(ram.words[block + SIZE := WithSize(w, size)]);
    }

    /** block_set_free */
    method BlockSetFree(block: int, ghost x: SizeField)
      requires Read(ram.words, block + SIZE) == Pack(x) && x.size % 4 == 0
      modifies this`ram
      ensures ram.words == old(ram.words)[block + SIZE := Pack(x.(free := true))]
    {
      var w := Read(ram.words, block + SIZE);
      assert WithFree(w) == Pack(x.(free := true)) by { PackedField(x, 0); }
      ram := Ram(ram.words[block + SIZE := WithFree(w)]);
    }

    /** block_set_used */
    method BlockSetUsed(block: int, ghost x: SizeField)
      requires Read(ram.words, block + SIZE) == Pack(x) && x.size % 4 == 0
      modifies this`ram
      ensures ram.words == old(ram.words)[block + SIZE := Pack(x.(free := false))]
    {
      var w := Read(ram.words, block + SIZE);
      assert WithUsed(w) == Pack(x.(free := false)) by { PackedField(x, 0); }
      ram := Ram(ram.words[block + SIZE := WithUsed(w)]);
    }

    /** block_set_prev_free */
    method BlockSetPrevFree(block: int, ghost x: SizeField)
      requires Read(ram.words, block + SIZE) == Pack(x) && x.size % 4 == 0
      modifies this`ram
      ensures ram.words == old(ram.words)[block + SIZE := Pack(x.(prevFree := true))]
    {
      var w := Read(ram.words, block + SIZE);
      assert WithPrevFree(w) == Pack(x.(prevFree := true)) by { PackedField(x, 0); }
      ram := Ram(ram.words[block + SIZE := WithPrevFree(w)]);
    }

    /** block_set_prev_used */
    method BlockSetPrevUsed(block: int, ghost x: SizeField)
      requires Read(ram.words, block + SIZE) == Pack(x) && x.size % 4 == 0
      modifies this`ram
      ensures ram.words == old(ram.words)[block + SIZE := Pack(x.(prevFree := false))]
    {
      var w := Read(ram.words, block + SIZE);
      assert WithPrevUsed(w) == Pack(x.(prevFree := false)) by { PackedField(x, 0); }
      ram := Ram(ram.words[block + SIZE := WithPrevUsed(w)]);
    }

    /** block_next: offset_to_block(block_to_ptr(block), block_size(block) - block_header_overhead) */
    method BlockNext(block: int, ghost x: SizeField) returns (next: int)
      requires Read(ram.words, block + SIZE) == Pack(x) && x.size % 4 == 0
      ensures next == block + 8 + x.size
    {
      var size := BlockSize(block, x);
      next := block + START_OFFSET + (size - 8);
    }

    /** block_link_next */
    method BlockLinkNext(block: int, ghost x: SizeField) returns (next: int)
      requires Read(ram.words, block + SIZE) == Pack(x) && x.size % 4 == 0
      modifies this`ram
      ensures next == block + 8 + x.size && ram.words == old(ram.words)[next := block]
    {
      next := BlockNext(block, x);
      ram := Ram(ram.words[next := block]);
    }

    // ---------- free lists ----------

    /** The bitmap updates of remove_free_block for a list that has become empty. */
    method ClearListBit(fl: int, sl: int)
      requires slBitmap.Length == FL_INDEX_COUNT && 0 <= fl < FL_INDEX_COUNT && 0 <= sl < SL_INDEX_COUNT
      requires 0 <= slBitmap[fl] < WORD_MOD && 0 <= flBitmap < WORD_MOD
      modifies this`flBitmap, slBitmap
      ensures slBitmap[..] == old(slBitmap[..])[fl := ClearBit(old(slBitmap[fl]), sl)]
      ensures flBitmap == ClearedFl(old(flBitmap), slBitmap[fl], fl)
    {
      slBitmap[fl] := ClearBit(slBitmap[fl], sl);
      if slBitmap[fl] == 0 {
        flBitmap := ClearBit(flBitmap, fl);
      }
    }

    /** remove_free_block, lines 586-601: list (fl, sl), not empty, starts at next from now on. */
    method AdvanceHead(fl: int, sl: int, next: int)
      requires slBitmap != blocks && slBitmap.Length == FL_INDEX_COUNT && blocks.Length == CLASS_COUNT
      requires 0 <= fl < FL_INDEX_COUNT && 0 <= sl < SL_INDEX_COUNT
      requires Bitmaps(flBitmap, slBitmap[..], blocks[..], nul) && blocks[SL_INDEX_COUNT * fl + sl] != nul
      modifies this`flBitmap, slBitmap, blocks
      ensures blocks[..] == old(blocks[..])[SL_INDEX_COUNT * fl + sl := next]
      ensures Bitmaps(flBitmap, slBitmap[..], blocks[..], nul)
    {
      ghost var flb, rows, heads := flBitmap, slBitmap[..], blocks[..];
      blocks[SL_INDEX_COUNT * fl + sl] := next;
      if next == nul {
        ClearKeepsBitmaps(flb, rows, heads, nul, fl, sl);
        ClearListBit(fl, sl);
      } else {
        MoveKeepsBitmaps(flb, rows, heads, nul, SL_INDEX_COUNT * fl + sl, next);
      }
    }

    /** remove_free_block: what it does to memory, heads and bitmaps */
    method UnlinkBlock(block: int, fl: int, sl: int, ghost L: Nodes)
      requires slBitmap != blocks && slBitmap.Length == FL_INDEX_COUNT && blocks.Length == CLASS_COUNT
      requires 0 <= fl < FL_INDEX_COUNT && 0 <= sl < SL_INDEX_COUNT
      requires Lists(ram.words, blocks[..], nul, L) && Bitmaps(flBitmap, slBitmap[..], blocks[..], nul)
      requires block in L && L[block].cls == SL_INDEX_COUNT * fl + sl
      modifies this`ram, this`flBitmap, slBitmap, blocks
      ensures ram.words == RemoveLinks(old(ram.words), block)
      ensures blocks[..] == RemoveHead(old(ram.words), old(blocks[..]), block, SL_INDEX_COUNT * fl + sl)
      ensures Bitmaps(flBitmap, slBitmap[..], blocks[..], nul)
    {
      ghost var m, heads, k := ram.words, blocks[..], SL_INDEX_COUNT * fl + sl;
      assert NodeOk(m, heads, nul, L, block) && HeadOk(m, heads, nul, L, k);
      var prev := Read(ram.words, block + PREV_FREE);
      var next := Read(ram.words, block + NEXT_FREE);
      ram := Ram(ram.words[next + PREV_FREE := prev]);
      ram := Ram(ram.words[prev + NEXT_FREE := next]);
      if blocks[SL_INDEX_COUNT * fl + sl] == block {
        AdvanceHead(fl, sl, next);
      }
      assert blocks[..] == RemoveHead(m, heads, block, k);
    }

    /** remove_free_block */
    method RemoveFreeBlock(block: int, fl: int, sl: int, ghost D: set<int>)
      requires Inv(D) && block in layout.L
      requires 0 <= fl < FL_INDEX_COUNT && 0 <= sl < SL_INDEX_COUNT && layout.L[block].cls == SL_INDEX_COUNT * fl + sl
      modifies this`ram, this`flBitmap, this`layout, slBitmap, blocks
      ensures Inv(D + {block}) && layout == old(layout).(L := old(layout).L - {block})
      ensures ram.words == RemoveLinks(old(ram.words), block) && Keeps(layout.B, 0, old(ram.words), ram.words)
    {
      ghost var h := Snapshot();
      UnlinkBlock(block, fl, sl, layout.L);
      RemoveInv(h, D, block, SL_INDEX_COUNT * fl + sl, flBitmap, slBitmap[..]);
      layout := layout.(L := layout.L - {block});
    }

    /** insert_free_block: what it does to memory, heads and bitmaps */
    method InsertFreeBlock(block: int, fl: int, sl: int)
      requires slBitmap != blocks && slBitmap.Length == FL_INDEX_COUNT && blocks.Length == CLASS_COUNT
      requires 0 <= fl < FL_INDEX_COUNT && 0 <= sl < SL_INDEX_COUNT
      requires 0 <= slBitmap[fl] < WORD_MOD && 0 <= flBitmap < WORD_MOD
      modifies this`ram, this`flBitmap, slBitmap, blocks
      ensures ram.words == InsertLinks(old(ram.words), nul, block, old(blocks[SL_INDEX_COUNT * fl + sl]))
      ensures flBitmap == SetBit(old(flBitmap), fl)
      ensures slBitmap[..] == old(slBitmap[..])[fl := SetBit(old(slBitmap[fl]), sl)]
      ensures blocks[..] == old(blocks[..])[SL_INDEX_COUNT * fl + sl := block]
      ensures old(Bitmaps(flBitmap, slBitmap[..], blocks[..], nul)) && block != nul ==>
                Bitmaps(flBitmap, slBitmap[..], blocks[..], nul)
    {
      ghost var flb, rows, heads := flBitmap, slBitmap[..], blocks[..];
      if Bitmaps(flb, rows, heads, nul) && block != nul {
        SetKeepsBitmaps(flb, rows, heads, nul, fl, sl, block);
      }
      var current := blocks[SL_INDEX_COUNT * fl + sl];
      ram := Ram(ram.words[block + NEXT_FREE := current]);
      ram := Ram(ram.words[block + PREV_FREE := nul]);
      ram := Ram(ram.words[current + PREV_FREE := block]);
      blocks[SL_INDEX_COUNT * fl + sl] := block;
      flBitmap := SetBit(flBitmap, fl);
      slBitmap[fl] := SetBit(slBitmap[fl], sl);
      assert slBitmap[..] == rows[fl := SetBit(rows[fl], sl)];
      assert blocks[..] == heads[SL_INDEX_COUNT * fl + sl := block];
    }

    /** block_remove */
    method BlockRemove(block: int, ghost D: set<int>)
      requires Inv(D) && block in layout.L
      modifies this`ram, this`flBitmap, this`layout, slBitmap, blocks
      ensures Inv(D + {block}) && layout == old(layout).(L := old(layout).L - {block})
      ensures ram.words == RemoveLinks(old(ram.words), block) && Keeps(layout.B, 0, old(ram.words), ram.words)
    {
      ListedIsBlock(Snapshot(), D, block);
      assert HeaderOk(ram.words, layout.B, block) && FiledOk(layout.B, layout.L, block);
      ClassInRange(layout.B[block].size);
      var size := BlockSize(block, FieldOf(layout.B, block));
      var (fl, sl) := MappingInsert(size);
      RemoveFreeBlock(block, fl, sl, D);
    }

    /** block_insert, for a block off the lists */
    method BlockInsert(block: int, ghost D: set<int>)
      requires Inv(D) && block in D && block in layout.B && layout.B[block].size != 0
      requires CoalescedAt(layout.B, D - {block}, block) && (PrevFree(layout.B, block) ==> layout.B[block].prev in D)
      modifies this`ram, this`flBitmap, this`layout, slBitmap, blocks
      ensures Inv(D - {block}) && layout == old(layout).(L := layout.L)
      ensures Keeps(layout.B, 0, old(ram.words), ram.words)
    {
      ghost var h := Snapshot();
      assert BlockOk(h.B, block) && HeaderOk(h.m, h.B, block);
      ClassInRange(h.B[block].size);
      MultipleOf4(h.B[block].size);
      var size := BlockSize(block, FieldOf(h.B, block));
      var (fl, sl) := MappingInsert(size);
      Attach(h, D, block);
      ListSites(h, D, block);
      assert SlOk(h.sl, h.heads, h.nul, fl, sl);
      InsertFreeBlock(block, fl, sl);
      ghost var k := SL_INDEX_COUNT * fl + sl;
      layout := layout.(L := InsertNode(h.L, block, k, h.heads[k]));
    }

    // ---------- headers ----------

    /** block_mark_as_free */
    method BlockMarkAsFree(block: int, ghost D: set<int>)
      requires Inv(D) && block in layout.B && !layout.B[block].free && layout.B[block].size != 0
      modifies this`ram, this`layout
      ensures Inv(D + {block}) && layout == old(layout).(B := SetFree(old(layout.B), block, true))
      ensures Keeps(old(layout.B), block, old(ram.words), ram.words) && SameUsed(old(layout.B), block, layout.B)
    {
      ghost var h := Snapshot();
      NextBlock(h, D, block);
      var next := BlockLinkNext(block, FieldOf(layout.B, block));
      BlockSetPrevFree(next, FieldOf(layout.B, next));
      BlockSetFree(block, FieldOf(layout.B, block));
      MarkFreeInv(h, D, block);
      layout := layout.(B := SetFree(layout.B, block, true));
    }

    /** block_mark_as_used */
    method BlockMarkAsUsed(block: int, ghost D: set<int>)
      requires Inv(D) && block in D && block in layout.B && layout.B[block].size != 0
      modifies this`ram, this`layout
      ensures Inv(D - {block}) && layout == old(layout).(B := SetFree(old(layout.B), block, false))
      ensures Keeps(old(layout.B), block, old(ram.words), ram.words) && SameUsed(old(layout.B), block, layout.B)
    {
      ghost var h := Snapshot();
      NextBlock(h, D, block);
      var next := BlockNext(block, FieldOf(layout.B, block));
      BlockSetPrevUsed(next, FieldOf(layout.B, next));
      BlockSetUsed(block, FieldOf(layout.B, block));
      MarkInv(h, D, block, false, ram.words);
      layout := layout.(B := SetFree(layout.B, block, false));
    }

    /** block_split: the new header keeps whatever prev-free flag its size word happened to have, so
        every caller must set that flag before the layout is right again. */
    method BlockSplit(block: int, size: nat, ghost x: SizeField, ghost y: SizeField)
      returns (remaining: int, ghost z: SizeField)
      requires Read(ram.words, block + SIZE) == Pack(x) && Read(ram.words, block + 8 + x.size + SIZE) == Pack(y)
      requires x.size % 4 == 0 && y.size % 4 == 0 && size % 4 == 0
      requires BLOCK_HEADER_SIZE + size <= x.size
      modifies this`ram
      ensures remaining == block + 8 + size
      ensures z.size % 4 == 0 && old(Read(ram.words, block + 8 + size + SIZE)) == Pack(z)
      ensures ram.words == SplitWords(old(ram.words), block, size, x, y, z)
    {
      remaining := block + START_OFFSET + (size - 8);
      z := AnyWordIsPacked(Read(ram.words, remaining + SIZE));
      var blockSize := BlockSize(block, x);
      var remainSize := blockSize - (size + 8);
      BlockSetSize(remaining, remainSize, z);
      BlockSetSize(block, size, x);
      // block_mark_as_free(remaining)
      var next := BlockLinkNext(remaining, z.(size := remainSize));
      BlockSetPrevFree(next, y);
      BlockSetFree(remaining, z.(size := remainSize));
    }

    /** block_split with the repair its callers make when the first part stays free. */
    method BlockSplitFree(block: int, size: nat, ghost x: SizeField, ghost y: SizeField)
      returns (remaining: int, ghost z: SizeField)
      requires Read(ram.words, block + SIZE) == Pack(x) && Read(ram.words, block + 8 + x.size + SIZE) == Pack(y)
      requires x.size % 4 == 0 && y.size % 4 == 0 && size % 4 == 0
      requires BLOCK_SIZE_MIN <= size && BLOCK_HEADER_SIZE + size <= x.size
      modifies this`ram
      ensures remaining == block + 8 + size
      ensures ram.words == SplitFreeWords(old(ram.words), block, size, x, y, z)
    {
      remaining, z := BlockSplit(block, size, x, y);
      var next := BlockLinkNext(block, x.(size := size));
      BlockSetPrevFree(remaining, SizeField(x.size - size - 8, true, z.prevFree));
    }

    /** block_split with the repair of block_trim_free_leading, which takes the two steps in the other order. */
    method BlockSplitLeading(block: int, size: nat, ghost x: SizeField, ghost y: SizeField)
      returns (remaining: int, ghost z: SizeField)
      requires Read(ram.words, block + SIZE) == Pack(x) && Read(ram.words, block + 8 + x.size + SIZE) == Pack(y)
      requires x.size % 4 == 0 && y.size % 4 == 0 && size % 4 == 0
      requires BLOCK_SIZE_MIN <= size && BLOCK_HEADER_SIZE + size <= x.size
      modifies this`ram
      ensures remaining == block + 8 + size
      ensures ram.words == SplitFreeWords(old(ram.words), block, size, x, y, z)
    {
      remaining, z := BlockSplit(block, size, x, y);
      ghost var m := ram.words;
      BlockSetPrevFree(remaining, SizeField(x.size - size - 8, true, z.prevFree));
      var next := BlockLinkNext(block, x.(size := size));
      ghost var w := Pack(SizeField(x.size - size - 8, true, true));
      assert m[remaining + SIZE := w][remaining := block] == m[remaining := block][remaining + SIZE := w];
    }

    /** block_split with the repair block_trim_used makes. */
    method BlockSplitUsed(block: int, size: nat, ghost x: SizeField, ghost y: SizeField)
      returns (remaining: int, ghost z: SizeField)
      requires Read(ram.words, block + SIZE) == Pack(x) && Read(ram.words, block + 8 + x.size + SIZE) == Pack(y)
      requires x.size % 4 == 0 && y.size % 4 == 0 && size % 4 == 0
      requires BLOCK_SIZE_MIN <= size && BLOCK_HEADER_SIZE + size <= x.size
      modifies this`ram
      ensures remaining == block + 8 + size
      ensures ram.words == SplitUsedWords(old(ram.words), block, size, x, y, z)
    {
      remaining, z := BlockSplit(block, size, x, y);
      BlockSetPrevUsed(remaining, SizeField(x.size - size - 8, true, z.prevFree));
    }

    /** block_can_split */
    method BlockCanSplit(block: int, size: nat, ghost x: SizeField) returns (r: bool)
      requires Read(ram.words, block + SIZE) == Pack(x) && x.size % 4 == 0
      ensures r <==> BLOCK_HEADER_SIZE + size <= x.size
    {
      var blockSize := BlockSize(block, x);
      r := blockSize >= BLOCK_HEADER_SIZE + size;
    }

    /** block_trim_free, lines 713-715: the cut, the rest not being listed yet. */
    method CutFree(block: int, size: nat, ghost D: set<int>) returns (remaining: int)
      requires Inv(D) && block in D && CanSplit(layout.B, block, size)
      requires layout.B[block].free && Next(layout.B, block) in layout.B
      modifies this`ram, this`layout
      ensures remaining == block + 8 + size && remaining !in D && Inv(D + {remaining})
      ensures layout == old(layout).(B := Split(old(layout.B), block, size))
      ensures Keeps(old(layout.B), block, old(ram.words), ram.words) && SameUsed(old(layout.B), block, layout.B)
    {
      ghost var h := Snapshot();
      NextBlock(h, D, block);
      MultipleOf4(size);
      ghost var z;
      remaining, z := BlockSplitFree(block, size, FieldOf(h.B, block), FieldOf(h.B, Next(h.B, block)));
      SplitFreeInv(h, D, block, size, z);
      layout := layout.(B := Split(h.B, block, size));
    }

    /** block_trim_free: a detached free block keeps size bytes, the rest goes back on a list. */
    method BlockTrimFree(block: int, size: nat, ghost D: set<int>)
      requires Inv(D) && block in D && block in layout.B && layout.B[block].free && layout.B[block].size != 0
      requires Next(layout.B, block) in layout.B && !layout.B[Next(layout.B, block)].free
      requires size % ALIGN_SIZE == 0 && BLOCK_SIZE_MIN <= size
      modifies this`ram, this`flBitmap, this`layout, slBitmap, blocks
      ensures Inv(D)
      ensures layout.B == if CanSplit(old(layout.B), block, size) then Split(old(layout.B), block, size)
                          else old(layout.B)
      ensures layout.pools == old(layout).pools
      ensures Keeps(old(layout.B), block, old(ram.words), ram.words) && SameUsed(old(layout.B), block, layout.B)
    {
      ghost var h := Snapshot();
      NextBlock(h, D, block);
      var split := BlockCanSplit(block, size, FieldOf(h.B, block));
      if split {
        var remaining := CutFree(block, size, D);
        SplitReady(h, D, block, size);
        ghost var m1, B1 := ram.words, layout.B;
        BlockInsert(remaining, D + {remaining});
        KeepsThenAll(h.B, block, h.m, m1, B1, ram.words);
      }
    }

    /** block_trim_free_leading, lines 741-746: the cut, the part before it not being listed yet. */
    method CutLeading(block: int, gap: nat) returns (remaining: int)
      requires Inv({block}) && BLOCK_HEADER_SIZE <= gap && CanSplit(layout.B, block, gap - 8)
      requires layout.B[block].free && Next(layout.B, block) in layout.B
      modifies this`ram, this`layout
      ensures remaining == block + gap && Inv({block} + {remaining})
      ensures layout == old(layout).(B := Split(old(layout.B), block, gap - 8))
      ensures Keeps(old(layout.B), block, old(ram.words), ram.words) && SameUsed(old(layout.B), block, layout.B)
    {
      ghost var h := Snapshot();
      NextBlock(h, {block}, block);
      MultipleOf4(gap - 8);
      ghost var z;
      remaining, z := BlockSplitLeading(block, gap - 8, FieldOf(h.B, block), FieldOf(h.B, Next(h.B, block)));
      SplitFreeInv(h, {block}, block, gap - 8, z);
      layout := layout.(B := Split(h.B, block, gap - 8));
    }

    /** block_trim_free_leading: the block from gap on, the part before it going back on a list. */
    method BlockTrimFreeLeading(block: int, gap: nat) returns (remaining: int)
      requires Inv({block}) && block in layout.B && layout.B[block].free && layout.B[block].size != 0
      requires !PrevFree(layout.B, block) && Next(layout.B, block) in layout.B && !layout.B[Next(layout.B, block)].free
      requires gap % ALIGN_SIZE == 0 && BLOCK_HEADER_SIZE <= gap && BLOCK_HEADER_SIZE + gap <= layout.B[block].size
      modifies this`ram, this`flBitmap, this`layout, slBitmap, blocks
      ensures remaining == block + gap && Inv({remaining})
      ensures CanSplit(old(layout.B), block, gap - 8) && layout.B == Split(old(layout.B), block, gap - 8)
      ensures layout.pools == old(layout).pools
      ensures Keeps(old(layout.B), block, old(ram.words), ram.words) && SameUsed(old(layout.B), block, layout.B)
    {
      ghost var h := Snapshot();
      NextBlock(h, {block}, block);
      remaining := block;
      var split := BlockCanSplit(block, gap, FieldOf(h.B, block));
      LeadingReady(h, block, gap);
      if split {
        remaining := CutLeading(block, gap);
        ghost var m1, B1 := ram.words, layout.B;
        BlockInsert(block, {block} + {remaining});
        KeepsThenAll(h.B, block, h.m, m1, B1, ram.words);
      }
    }

    // ---------- coalescing ----------

    /** block_absorb */
    method BlockAbsorb(prev: int, block: int, ghost x: SizeField, ghost y: SizeField)
      requires Read(ram.words, prev + SIZE) == Pack(x) && Read(ram.words, block + SIZE) == Pack(y)
      requires x.size % 4 == 0 && y.size % 4 == 0
      modifies this`ram
      ensures ram.words == AbsorbWords(old(ram.words), prev, x, y)
    {
      var size := BlockSize(block, y);
      ram := Ram(ram.words[prev + SIZE := Read(ram.words, prev + SIZE) + (size + 8)]);
      var next := BlockLinkNext(prev, x.(size := x.size + 8 + y.size));
    }

    /** block_merge_prev, for a block just marked free */
    method BlockMergePrev(block: int) returns (merged: int)
      requires Inv({block}) && block in layout.B && layout.B[block].free && layout.B[block].size != 0
      requires Mergeable(layout.B, block)
      modifies this`ram, this`flBitmap, this`layout, slBitmap, blocks
      ensures merged == MergedAt(old(layout.B), block) && Inv({merged})
      ensures layout.B == MergePrev(old(layout.B), block) && layout.pools == old(layout).pools
      ensures Keeps(old(layout.B), block, old(ram.words), ram.words) && SameUsed(old(layout.B), block, layout.B)
    {
      ghost var h := Snapshot();
      NextBlock(h, {block}, block);
      var prevFree := BlockIsPrevFree(block, FieldOf(h.B, block));
      merged := block;
      if prevFree {
        PrevBlock(h, {block}, block);
        var prev := Read(ram.words, block);
        BlockRemove(prev, {block});
        ghost var h1 := Snapshot();
        MergePrevStep(h, h1, block, prev);
        BlockAbsorb(prev, block, FieldOf(h.B, prev), FieldOf(h.B, block));
        layout := layout.(B := Merge(h.B, prev));
        merged := prev;
      }
    }

    /** block_merge_next, for a free block off the lists */
    method BlockMergeNext(block: int)
      requires Inv({block}) && block in layout.B && layout.B[block].free && layout.B[block].size != 0
      requires Next(layout.B, block) in layout.B
      modifies this`ram, this`flBitmap, this`layout, slBitmap, blocks
      ensures Inv({block}) && layout.B == MergeNext(old(layout.B), block) && layout.pools == old(layout).pools
      ensures Keeps(old(layout.B), block, old(ram.words), ram.words) && SameUsed(old(layout.B), block, layout.B)
    {
      ghost var h := Snapshot();
      NextBlock(h, {block}, block);
      var next := BlockNext(block, FieldOf(h.B, block));
      var free := BlockIsFree(next, FieldOf(h.B, next));
      if free {
        FreeNextListed(h, {block}, block);
        BlockRemove(next, {block});
        ghost var h1 := Snapshot();
        MergeNextStep(h, h1, block);
        BlockAbsorb(block, next, FieldOf(h.B, block), FieldOf(h.B, next));
        layout := layout.(B := Merge(h.B, block));
      }
    }

    // ---------- in-place reallocation ----------

    /** The part of block_trim_used that cuts the block. */
    method BlockCut(block: int, size: nat) returns (remaining: int)
      requires Inv({}) && CanSplit(layout.B, block, size) && !layout.B[block].free
      requires Next(layout.B, block) in layout.B
      modifies this`ram, this`layout
      ensures remaining == block + 8 + size && Inv({remaining})
      ensures layout == old(layout).(B := Split(old(layout.B), block, size))
      ensures Keeps(old(layout.B), block, old(ram.words), ram.words) && SameUsed(old(layout.B), block, layout.B)
      ensures PayloadKept(old(ram.words), ram.words, block, size)
    {
      ghost var h := Snapshot();
      NextBlock(h, {}, block);
      MultipleOf4(size);
      ghost var z;
      remaining, z := BlockSplitUsed(block, size, FieldOf(h.B, block), FieldOf(h.B, Next(h.B, block)));
      SplitUsedInv(h, {}, block, size, z);
      assert {} + {remaining} == {remaining};
      layout := layout.(B := Split(h.B, block, size));
    }

    /** block_trim_used */
    method BlockTrimUsed(block: int, size: nat)
      requires Inv({}) && block in layout.B && !layout.B[block].free && layout.B[block].size != 0
      requires Next(layout.B, block) in layout.B
      requires size % ALIGN_SIZE == 0 && BLOCK_SIZE_MIN <= size <= layout.B[block].size
      modifies this`ram, this`flBitmap, this`layout, slBitmap, blocks
      ensures Inv({}) && layout.B == Shrink(old(layout.B), block, size) && layout.pools == old(layout).pools
      ensures Keeps(old(layout.B), block, old(ram.words), ram.words) && SameUsed(old(layout.B), block, layout.B)
      ensures block in layout.B && !layout.B[block].free && size <= layout.B[block].size <= old(layout.B)[block].size
      ensures Tight(layout.B[block].size, size)
      ensures PayloadKept(old(ram.words), ram.words, block, layout.B[block].size)
    {
      ghost var h := Snapshot();
      NextBlock(h, {}, block);
      var split := BlockCanSplit(block, size, FieldOf(h.B, block));
      if split {
        var remaining := BlockCut(block, size);
        ghost var h1 := Snapshot();
        ShrinkMiddle(h, h1, block, size);
        BlockMergeNext(remaining);
        ghost var h2 := Snapshot();
        BlockInsert(remaining, {remaining});
        ShrinkKeeps(h.B, block, size, h.m, h1.B, h1.m, remaining, h2.B, h2.m, ram.words);
      }
    }

    /** The writes of block_merge_next and block_mark_as_used on a used block with a free next one. */
    method BlockGrowWords(block: int, next: int, ghost x: SizeField, ghost y: SizeField, ghost z: SizeField)
      requires Read(ram.words, block + SIZE) == Pack(x) && Read(ram.words, next + SIZE) == Pack(y)
      requires next == block + 8 + x.size && Read(ram.words, next + 8 + y.size + SIZE) == Pack(z)
      requires x.size % 4 == 0 && y.size % 4 == 0 && z.size % 4 == 0 && 0 < x.size && 0 < y.size
      modifies this`ram
      ensures ram.words == GrowWords(old(ram.words), block, x, y, z)
    {
      BlockAbsorb(block, next, x, y);
      ghost var merged := x.(size := x.size + 8 + y.size);
      var after := BlockNext(block, merged);
      BlockSetPrevUsed(after, z);
      BlockSetUsed(block, merged);
    }

    /** block_merge_next and block_mark_as_used, for a used block whose next block is free */
    method BlockGrow(block: int)
      requires Inv({}) && block in layout.B && !layout.B[block].free && layout.B[block].size != 0
      requires Next(layout.B, block) in layout.B && layout.B[Next(layout.B, block)].free
      modifies this`ram, this`flBitmap, this`layout, slBitmap, blocks
      ensures Inv({}) && Next(old(layout.B), Next(old(layout.B), block)) in old(layout.B)
      ensures layout.B == Grow(old(layout.B), block) && layout.pools == old(layout).pools
      ensures Keeps(old(layout.B), block, old(ram.words), ram.words) && SameUsed(old(layout.B), block, layout.B)
      ensures PayloadKept(old(ram.words), ram.words, block, old(layout.B)[block].size)
    {
      ghost var h := Snapshot();
      NextBlock(h, {}, block);
      FreeNextListed(h, {}, block);
      var next := BlockNext(block, FieldOf(h.B, block));
      BlockRemove(next, {});
      ghost var h1 := Snapshot();
      GrowStep(h, h1, block);
      BlockGrowOver(block, next, FieldOf(h.B, block), FieldOf(h.B, next), FieldOf(h.B, Next(h.B, next)));
    }

    /** The same once the next block is off its list */
    method BlockGrowOver(block: int, next: int, ghost x: SizeField, ghost y: SizeField, ghost z: SizeField)
      requires Read(ram.words, block + SIZE) == Pack(x) && Read(ram.words, next + SIZE) == Pack(y)
      requires next == block + 8 + x.size && Read(ram.words, next + 8 + y.size + SIZE) == Pack(z)
      requires x.size % 4 == 0 && y.size % 4 == 0 && z.size % 4 == 0 && 0 < x.size && 0 < y.size
      requires slBitmap != blocks && slBitmap.Length == FL_INDEX_COUNT && blocks.Length == CLASS_COUNT
      requires block in layout.B && Next(layout.B, block) in layout.B
      requires Next(layout.B, Next(layout.B, block)) in layout.B
      requires HeapInv(AfterMerge(Snapshot(), GrowWords(ram.words, block, x, y, z), block), {})
      modifies this`ram, this`layout
      ensures Inv({}) && ram.words == GrowWords(old(ram.words), block, x, y, z)
      ensures layout == old(layout).(B := Grow(old(layout.B), block))
    {
      ghost var h := AfterMerge(Snapshot(), GrowWords(ram.words, block, x, y, z), block);
      BlockGrowWords(block, next, x, y, z);
      layout := layout.(B := Grow(layout.B, block));
      assert Snapshot() == h;
    }

    // ---------- search ----------

    /** search_suitable_block: the first list from (fl0, sl0) on that is not empty, in the order of
        blocks[][]; 0 if all of them are empty. */
    method SearchSuitableBlock(fl0: int, sl0: int) returns (block: int, fl: int, sl: int)
      requires Inv({}) && 0 <= fl0 < FL_INDEX_COUNT && 0 <= sl0 < SL_INDEX_COUNT
      ensures block == 0 ==> EmptyBetween(blocks[..], nul, SL_INDEX_COUNT * fl0 + sl0, CLASS_COUNT)
      ensures block != 0 ==>
                && 0 <= fl < FL_INDEX_COUNT && 0 <= sl < SL_INDEX_COUNT
                && block == blocks[SL_INDEX_COUNT * fl + sl] && block != nul
                && SL_INDEX_COUNT * fl0 + sl0 <= SL_INDEX_COUNT * fl + sl
                && EmptyBetween(blocks[..], nul, SL_INDEX_COUNT * fl0 + sl0, SL_INDEX_COUNT * fl + sl)
    {
      var slMap;
      fl, slMap := SearchRowMap(fl0, sl0);
      sl := sl0;
      if slMap == 0 {
        return 0, fl, sl;
      }
      sl := Ffs(slMap);
      block := blocks[SL_INDEX_COUNT * fl + sl];
      HeadIsBlock(Snapshot(), SL_INDEX_COUNT * fl + sl);
    }

    /** search_suitable_block, lines 551-564: the row the search ends in, and its bitmap from where
        the search may look; 0 if there is no such row. */
    method SearchRowMap(fl0: int, sl0: int) returns (fl: int, slMap: nat)
      requires Inv({}) && 0 <= fl0 < FL_INDEX_COUNT && 0 <= sl0 < SL_INDEX_COUNT
      ensures slMap == 0 ==> EmptyBetween(blocks[..], nul, SL_INDEX_COUNT * fl0 + sl0, CLASS_COUNT)
      ensures slMap != 0 ==>
                && 0 <= fl < FL_INDEX_COUNT && Ffs(slMap) < SL_INDEX_COUNT
                && blocks[SL_INDEX_COUNT * fl + Ffs(slMap)] != nul
                && SL_INDEX_COUNT * fl0 + sl0 <= SL_INDEX_COUNT * fl + Ffs(slMap)
                && EmptyBetween(blocks[..], nul, SL_INDEX_COUNT * fl0 + sl0, SL_INDEX_COUNT * fl + Ffs(slMap))
    {
      ghost var h := Snapshot();
      fl := fl0;
      SearchRow(h.flb, h.sl, h.heads, h.nul, fl0, sl0);
      slMap := FromBit(slBitmap[fl], sl0);
      if slMap == 0 {
        SearchBoth(h.flb, h.sl, h.heads, h.nul, fl0, sl0);
        var flMap := FromBit(flBitmap, fl + 1);
        if flMap == 0 {
          return;
        }
        fl := Ffs(flMap);
        slMap := slBitmap[fl];
      }
    }

    /** block_locate_free: a block that fits, off its list; 0 if there is none. */
    method BlockLocateFree(size: nat) returns (block: int)
      requires Inv({})
      requires size == 0 || (BLOCK_SIZE_MIN <= size < BLOCK_SIZE_MAX && size % ALIGN_SIZE == 0)
      modifies this`ram, this`flBitmap, this`layout, slBitmap, blocks
      ensures layout.B == old(layout.B) && layout.pools == old(layout).pools
      ensures block == 0 <==> size == 0 || NoneFits(layout.B, size)
      ensures block == 0 ==> Inv({}) && layout == old(layout) && ram == old(ram)
      ensures block != 0 ==> Inv({block}) && BestFit(layout.B, block, size) && size <= layout.B[block].size
      ensures block != 0 ==> IsHead(old(Snapshot()), block)
      ensures Keeps(layout.B, 0, old(ram.words), ram.words)
    {
      ghost var h := Snapshot();
      block := 0;
      var fl, sl := 0, 0;
      if size != 0 {
        SearchStart(size);
        var (fl0, sl0) := MappingSearch(size);
        if fl0 < FL_INDEX_COUNT {
          block, fl, sl := SearchSuitableBlock(fl0, sl0);
          if block == 0 { NothingFound(h, size); }
        } else {
          TooLarge(h, size);
        }
      }
      if block != 0 {
        FoundFits(h, size, SL_INDEX_COUNT * fl + sl);
        HeadIsBlock(h, SL_INDEX_COUNT * fl + sl);
        RemoveFreeBlock(block, fl, sl, {});
        assert {} + {block} == {block};
      }
    }

    /** block_prepare_used: a block off the lists is trimmed and handed out. */
    method BlockPrepareUsed(block: int, size: nat) returns (p: int)
      requires block == 0 ==> Inv({})
      requires block != 0 ==>
                 && Inv({block}) && block in layout.B && layout.B[block].free && layout.B[block].size != 0
                 && Next(layout.B, block) in layout.B && !layout.B[Next(layout.B, block)].free
                 && size % ALIGN_SIZE == 0 && BLOCK_SIZE_MIN <= size
      modifies this`ram, this`flBitmap, this`layout, slBitmap, blocks
      ensures Inv({}) && layout.pools == old(layout).pools
      ensures block == 0 ==> p == 0 && layout == old(layout) && ram == old(ram)
      ensures block != 0 ==> p == block + START_OFFSET && layout.B == Allocate(old(layout.B), block, size)
      ensures block != 0 ==>
                Keeps(old(layout.B), block, old(ram.words), ram.words) && SameUsed(old(layout.B), block, layout.B)
    {
      p := 0;
      if block != 0 {
        ghost var h := Snapshot();
        BlockTrimFree(block, size, {block});
        ghost var h1 := Snapshot();
        BlockMarkAsUsed(block, {block});
        assert {block} - {block} == {};
        p := block + START_OFFSET;
        KeepsTransitive(h.B, block, h.m, h1.m, h1.B, ram.words);
        SameUsedTransitive(h.B, block, h1.B, layout.B);
      }
    }

    // ---------- the public operations ----------

    /** The invariant between calls: every free block is on its list. */
    ghost predicate Valid()
      reads this, slBitmap, blocks
    {
      Inv({})
    }

    /** An address the allocator has handed out and not yet taken back. */
    ghost predicate Live(ptr: int)
      reads this
    {
      var b := ptr - START_OFFSET;
      b in layout.B && !layout.B[b].free && layout.B[b].size != 0
    }

    /** tlsf_malloc */
    method Malloc(size: nat) returns (p: int)
      requires Valid() && size < SIZE_MOD
      modifies this`ram, this`flBitmap, this`layout, slBitmap, blocks
      ensures Valid() && layout.pools == old(layout).pools
      ensures var adjust := AdjustRequestSize(size, ALIGN_SIZE);
              p == 0 <==> adjust == 0 || NoneFits(old(layout.B), adjust)
      ensures p == 0 ==> layout == old(layout) && ram == old(ram)
      ensures p != 0 ==>
                var b, adjust := p - START_OFFSET, AdjustRequestSize(size, ALIGN_SIZE);
                && BestFit(old(layout.B), b, adjust) && IsHead(old(Snapshot()), b)
                && Next(old(layout.B), b) in old(layout.B)
                && layout.B == Allocate(old(layout.B), b, adjust)
                && Live(p) && p % ALIGN_SIZE == 0 && Tight(layout.B[b].size, adjust)
                && Keeps(old(layout.B), b, old(ram.words), ram.words) && SameUsed(old(layout.B), b, layout.B)
    {
      var adjust := AdjustRequestSize(size, ALIGN_SIZE);
      AdjustedSize(size);
      p := TakeBlock(adjust);
    }

    /** tlsf_malloc, lines 1118-1119, for an adjusted size */
    method TakeBlock(adjust: nat) returns (p: int)
      requires Valid()
      requires adjust == 0 || (BLOCK_SIZE_MIN <= adjust < BLOCK_SIZE_MAX && adjust % ALIGN_SIZE == 0)
      modifies this`ram, this`flBitmap, this`layout, slBitmap, blocks
      ensures Valid() && layout.pools == old(layout).pools
      ensures p == 0 <==> adjust == 0 || NoneFits(old(layout.B), adjust)
      ensures p == 0 ==> layout == old(layout) && ram == old(ram)
      ensures p != 0 ==>
                var b := p - START_OFFSET;
                && BestFit(old(layout.B), b, adjust) && IsHead(old(Snapshot()), b)
                && Next(old(layout.B), b) in old(layout.B)
                && layout.B == Allocate(old(layout.B), b, adjust)
                && Live(p) && p % ALIGN_SIZE == 0 && Tight(layout.B[b].size, adjust)
                && Keeps(old(layout.B), b, old(ram.words), ram.words) && SameUsed(old(layout.B), b, layout.B)
    {
      ghost var h := Snapshot();
      var block := BlockLocateFree(adjust);
      if block != 0 {
        FreeNeighbours(h, block);
        AllocateSize(h.B, block, adjust);
      }
      ghost var m1 := ram.words;
      p := BlockPrepareUsed(block, adjust);
      if block != 0 {
        KeepsFrom2(h.B, block, h.m, m1, ram.words);
      }
    }

    /** tlsf_memalign, lines 1149-1174: moves the start of the block to an aligned address. */
    method AlignBlock(found: int, align: nat, ghost e: nat, ghost adjust: nat) returns (block: int)
      requires Inv({found}) && found in layout.B && layout.B[found].free && layout.B[found].size != 0
      requires !PrevFree(layout.B, found) && Next(layout.B, found) in layout.B && !layout.B[Next(layout.B, found)].free
      requires align == Pow2(e) && e < 63 && BLOCK_SIZE_MIN <= adjust
      requires layout.B[found].size >= adjust + (if align > ALIGN_SIZE then align + BLOCK_HEADER_SIZE else 0)
      requires found > 0 && found % ALIGN_SIZE == 0 && found + START_OFFSET + layout.B[found].size <= SIZE_MOD
      modifies this`ram, this`flBitmap, this`layout, slBitmap, blocks
      ensures block >= found && Inv({block}) && Aligned(block + START_OFFSET, e)
      ensures LeastGap(found + START_OFFSET, block + START_OFFSET, e)
      ensures Placed(old(layout.B), found, block) && layout.B == WithGap(old(layout.B), found, block)
      ensures block in layout.B && layout.B[block].free && adjust <= layout.B[block].size
      ensures Next(layout.B, block) in layout.B && !layout.B[Next(layout.B, block)].free
      ensures layout.pools == old(layout).pools
      ensures Keeps(old(layout.B), found, old(ram.words), ram.words) && SameUsed(old(layout.B), found, layout.B)
    {
      block := found;
      var aligned, gap := AlignedGap(found + START_OFFSET, align, e);
      if gap != 0 {
        LeadingReady(Snapshot(), found, gap);
        block := BlockTrimFreeLeading(found, gap);
      }
    }

    /** tlsf_memalign, for a power of two that leaves room for the gap (AlignedRequestRoom) */
    method Memalign(align: nat, size: nat, ghost e: nat) returns (p: int, ghost found: int)
      requires Valid() && size < SIZE_MOD && align == Pow2(e) && e < 63
      modifies this`ram, this`flBitmap, this`layout, slBitmap, blocks
      ensures Valid() && layout.pools == old(layout).pools
      ensures var request := AlignedRequestSize(AdjustRequestSize(size, ALIGN_SIZE), align);
              p == 0 <==> request == 0 || NoneFits(old(layout.B), request)
      ensures p == 0 ==> layout == old(layout) && ram == old(ram)
      ensures p != 0 ==>
                var b, adjust := p - START_OFFSET, AdjustRequestSize(size, ALIGN_SIZE);
                && p % align == 0 && Live(p) && Tight(layout.B[b].size, adjust)
                && found > 0 && p > 0 && LeastGap(found + START_OFFSET, p, e)
                && BestFit(old(layout.B), found, AlignedRequestSize(adjust, align)) && IsHead(old(Snapshot()), found)
                && Placed(old(layout.B), found, b)
                && b in WithGap(old(layout.B), found, b)
                && Next(WithGap(old(layout.B), found, b), b) in WithGap(old(layout.B), found, b)
                && layout.B == Allocate(WithGap(old(layout.B), found, b), b, adjust)
                && Keeps(old(layout.B), b, old(ram.words), ram.words) && SameUsed(old(layout.B), b, layout.B)
    {
      ghost var h := Snapshot();
      var adjust := AdjustRequestSize(size, ALIGN_SIZE);
      var alignedSize := AlignedRequestSize(adjust, align);
      AlignedRequestIsSize(size, align, e);
      var block := BlockLocateFree(alignedSize);
      found := block;
      ghost var m1 := ram.words;
      if block != 0 {
        FreeNeighbours(h, block);
        BlockBelow(h, block);
        block := AlignBlock(block, align, e, adjust);
      }
      ghost var h2 := Snapshot();
      if block != 0 { AllocateSize(h2.B, block, adjust); }
      p := BlockPrepareUsed(block, adjust);
      if block != 0 {
        AlignedIsMultiple(p, e);
        AlignedKeeps(h.B, found, block, h.m, m1, h2.m, h2.B, ram.words, layout.B);
      }
    }

    /** tlsf_free */
    method Free(ptr: int)
      requires Valid() && (ptr != 0 ==> Live(ptr))
      modifies this`ram, this`flBitmap, this`layout, slBitmap, blocks
      ensures Valid() && layout.pools == old(layout).pools
      ensures ptr == 0 ==> layout == old(layout) && ram == old(ram)
      ensures ptr != 0 ==>
                var b := ptr - START_OFFSET;
                && Mergeable(SetFree(old(layout.B), b, true), b)
                && layout.B == Release(old(layout.B), b)
                && Keeps(old(layout.B), b, old(ram.words), ram.words) && SameUsed(old(layout.B), b, layout.B)
    {
      if ptr != 0 {
        var block := ptr - START_OFFSET;
        ghost var h := Snapshot();
        BlockMarkAsFree(block, {});
        ghost var h1 := Snapshot();
        assert {} + {block} == {block};
        MergeableBlock(h1, {block}, block);
        MergedPrev(h1, block);
        var merged := BlockMergePrev(block);
        ghost var h2 := Snapshot();
        MergedNext(h2, merged);
        BlockMergeNext(merged);
        ghost var h3 := Snapshot();
        assert {merged} - {merged} == {};
        BlockInsert(merged, {merged});
        FreeKeeps(h.B, block, h.m, h1.B, h1.m, h2.B, h2.m, merged, h3.B, h3.m, ram.words);
      }
    }

    /** memcpy (sys/libkern/string.c), between payloads that do not overlap */
    method Memcpy(dst: int, src: int, n: nat)
      requires dst % 8 == 0 && (dst + n <= src || src + n <= dst)
      modifies this`ram
      ensures SameBytes(ram.words, dst, old(ram.words), src, n)
      ensures WritesWithin(old(ram.words), ram.words, dst, dst + n - 1)
    {
      ghost var m := ram.words;
      var i := 0;
      while i < n
        invariant 0 <= i <= n
        invariant SameBytes(ram.words, dst, m, src, i)
        invariant forall c {:trigger ByteAt(ram.words, c)} ::
                    !(dst <= c < dst + i) ==> ByteAt(ram.words, c) == ByteAt(m, c)
        invariant WritesWithin(m, ram.words, dst, dst + n - 1)
      {
        ghost var before := ram.words;
        var v := ByteAt(ram.words, src + i);
        ram := Ram(WriteByte(ram.words, dst + i, v));
        CopyStep(m, before, ram.words, dst, src, i, n);
        i := i + 1;
      }
    }

    /** tlsf_realloc, lines 1239-1245: a new block, a copy, and the old block freed. */
    method ReallocMove(ptr: int, size: nat, cursize: nat) returns (p: int, ghost B1: Blocks)
      requires Valid() && Live(ptr) && size < SIZE_MOD && cursize == layout.B[ptr - START_OFFSET].size
      requires cursize < AdjustRequestSize(size, ALIGN_SIZE)
      modifies this`ram, this`flBitmap, this`layout, slBitmap, blocks
      ensures Valid() && layout.pools == old(layout).pools
      ensures p == 0 <==> NoneFits(old(layout.B), AdjustRequestSize(size, ALIGN_SIZE))
      ensures p == 0 ==> layout == old(layout) && ram == old(ram)
      ensures p != 0 ==>
                var b, c, adjust := ptr - START_OFFSET, p - START_OFFSET, AdjustRequestSize(size, ALIGN_SIZE);
                && p != ptr && c !in Used(old(layout.B)) && Live(p)
                && Tight(layout.B[c].size, adjust)
                && c in old(layout.B) && Next(old(layout.B), c) in old(layout.B)
                && B1 == Allocate(old(layout.B), c, adjust)
                && b in B1 && Mergeable(SetFree(B1, b, true), b) && layout.B == Release(B1, b)
                && Used(layout.B) == Used(old(layout.B)) - {b} + {c}
                && SameBytes(ram.words, p, old(ram.words), ptr, if cursize < size then cursize else size)
                && Keeps(old(layout.B), ptr - START_OFFSET, old(ram.words), ram.words)
                && SameUsed(old(layout.B), ptr - START_OFFSET, layout.B)
    {
      ghost var h, b := Snapshot(), ptr - START_OFFSET;
      B1 := h.B;
      p := Malloc(size);
      if p != 0 {
        ghost var h1, c := Snapshot(), p - START_OFFSET;
        B1 := h1.B;
        BlockBelow(h, b);
        assert b in Used(h.B) && b in layout.B;
        var minsize := if cursize < size then cursize else size;
        assert BlockOk(layout.B, c);
        ghost var m2 := CopyAndFree(ptr, p, minsize);
        UsedMove(h, h1, b, c, AdjustRequestSize(size, ALIGN_SIZE));
        MoveKeeps(h.B, b, c, h.m, h1.B, h1.m, m2, layout.B, ram.words, minsize);
      }
    }

    /** tlsf_realloc, lines 1243-1244; m2 is memory after the copy */
    method CopyAndFree(ptr: int, p: int, minsize: nat) returns (ghost m2: Memory)
      requires Valid() && Live(ptr) && Live(p) && ptr != p
      requires minsize <= layout.B[ptr - START_OFFSET].size && minsize <= layout.B[p - START_OFFSET].size
      modifies this`ram, this`flBitmap, this`layout, slBitmap, blocks
      ensures Valid() && layout.pools == old(layout).pools
      ensures var b, c, B := ptr - START_OFFSET, p - START_OFFSET, old(layout.B);
              && Keeps(B, c, old(ram.words), m2) && SameBytes(m2, p, old(ram.words), ptr, minsize)
              && Mergeable(SetFree(B, b, true), b) && layout.B == Release(B, b)
              && Keeps(B, b, m2, ram.words) && SameUsed(B, b, layout.B)
    {
      ghost var h, b, c := Snapshot(), ptr - START_OFFSET, p - START_OFFSET;
      BlockBelow(h, b);
      CopyPlaces(h, b, c, minsize);
      Memcpy(p, ptr, minsize);
      m2 := ram.words;
      CopyInv(h, c, minsize, m2);
      Free(ptr);
    }

    /** tlsf_realloc, lines 1249-1258: grow into the next block if needed, then trim. */
    method ReallocInPlace(ptr: int, adjust: nat, cursize: nat)
      requires Valid() && Live(ptr) && cursize == layout.B[ptr - START_OFFSET].size
      requires BLOCK_SIZE_MIN <= adjust && adjust % ALIGN_SIZE == 0 && Next(layout.B, ptr - START_OFFSET) in layout.B
      requires adjust > cursize ==>
                 var n := Next(layout.B, ptr - START_OFFSET);
                 layout.B[n].free && adjust <= cursize + 8 + layout.B[n].size
      modifies this`ram, this`flBitmap, this`layout, slBitmap, blocks
      ensures Valid() && layout.pools == old(layout).pools
      ensures Live(ptr) && Tight(layout.B[ptr - START_OFFSET].size, adjust)
      ensures Used(layout.B) == Used(old(layout.B))
      ensures var b, B0 := ptr - START_OFFSET, old(layout.B);
              if adjust > cursize then
                && Next(B0, Next(B0, b)) in B0 && b in Grow(B0, b) && Next(Grow(B0, b), b) in Grow(B0, b)
                && layout.B == Shrink(Grow(B0, b), b, adjust)
              else layout.B == Shrink(B0, b, adjust)
      ensures var b := ptr - START_OFFSET;
              var kept := if cursize < layout.B[b].size then cursize else layout.B[b].size;
              PayloadKept(old(ram.words), ram.words, b, kept)
      ensures Keeps(old(layout.B), ptr - START_OFFSET, old(ram.words), ram.words)
      ensures SameUsed(old(layout.B), ptr - START_OFFSET, layout.B)
    {
      var block := ptr - START_OFFSET;
      ghost var h := Snapshot();
      if adjust > cursize {
        BlockGrow(block);
      }
      ghost var h1 := Snapshot();
      if adjust > cursize { UsedGrow(h.B, block); }
      NextBlock(h1, {}, block);
      UsedShrink(h1, block, adjust);
      BlockTrimUsed(block, adjust);
      InPlaceKeeps(h.B, block, h.m, h1.B, h1.m, layout.B, ram.words, cursize);
    }

    /** tlsf_realloc, lines 1224-1259: a live block and a request that adjusts to a block size. */
    method ReallocResize(ptr: int, size: nat) returns (p: int)
      requires Valid() && Live(ptr) && 0 < size < SIZE_MOD && AdjustRequestSize(size, ALIGN_SIZE) != 0
      modifies this`ram, this`flBitmap, this`layout, slBitmap, blocks
      ensures Valid() && layout.pools == old(layout).pools
      ensures var adjust, b, B0 := AdjustRequestSize(size, ALIGN_SIZE), ptr - START_OFFSET, old(layout.B);
              && Next(B0, b) in B0
              && (p == ptr <==> FitsInPlace(B0, b, adjust))
              && (p == 0 <==> !FitsInPlace(B0, b, adjust) && NoneFits(B0, adjust))
              && Keeps(B0, b, old(ram.words), ram.words) && SameUsed(B0, b, layout.B)
      ensures p == 0 ==> layout == old(layout) && ram == old(ram)
      ensures p != 0 ==>
                && Live(p) && Tight(layout.B[p - START_OFFSET].size, AdjustRequestSize(size, ALIGN_SIZE))
                && (p != ptr ==> p - START_OFFSET !in Used(old(layout.B)))
                && Used(layout.B) == Used(old(layout.B)) - {ptr - START_OFFSET} + {p - START_OFFSET}
      ensures p != 0 && size <= SIZE_MOD - ALIGN_SIZE ==>
                var cursize := old(layout.B)[ptr - START_OFFSET].size;
                SameBytes(ram.words, p, old(ram.words), ptr, if cursize < size then cursize else size)
    {
      ghost var h := Snapshot();
      var block := ptr - START_OFFSET;
      NextBlock(h, {}, block);
      BlockBelow(h, block);
      var next := BlockNext(block, FieldOf(h.B, block));
      var cursize := BlockSize(block, FieldOf(h.B, block));
      var nextSize := BlockSize(next, FieldOf(h.B, next));
      var nextFree := BlockIsFree(next, FieldOf(h.B, next));
      var combined := cursize + nextSize + 8;
      var adjust := AdjustRequestSize(size, ALIGN_SIZE);
      AdjustedSize(size);
      if adjust > cursize && (!nextFree || adjust > combined) {
        ghost var B1;
        p, B1 := ReallocMove(ptr, size, cursize);
        if p == 0 { KeepsNothing(h.B, block, h.m); }
      } else {
        ReallocInPlace(ptr, adjust, cursize);
        p := ptr;
        assert block in Used(h.B) && Used(h.B) - {block} + {block} == Used(h.B);
        assert BlockOk(layout.B, block);
        InPlaceBytes(h, block, ram.words, layout.B[block].size, size, adjust);
      }
    }

    /** tlsf_realloc, for requests that adjust to a block size (ReallocOversize is the rest) */
    method Realloc(ptr: int, size: nat) returns (p: int)
      requires Valid() && size < SIZE_MOD && (ptr != 0 ==> Live(ptr))
      requires ptr != 0 && size != 0 ==> AdjustRequestSize(size, ALIGN_SIZE) != 0
      modifies this`ram, this`flBitmap, this`layout, slBitmap, blocks
      ensures Valid() && layout.pools == old(layout).pools
      // a zero size frees, a null pointer allocates
      ensures Used(layout.B) == Used(old(layout.B))
                - (if ptr != 0 && (size == 0 || p != 0) then {ptr - START_OFFSET} else {})
                + (if p != 0 then {p - START_OFFSET} else {})
      ensures ptr != 0 && size == 0 ==> p == 0
      ensures ptr == 0 ==>
                var adjust := AdjustRequestSize(size, ALIGN_SIZE);
                p == 0 <==> adjust == 0 || NoneFits(old(layout.B), adjust)
      // otherwise the block is resized, moved only if it must be, and null is returned only if it cannot
      ensures ptr != 0 && size != 0 ==>
                var adjust, b := AdjustRequestSize(size, ALIGN_SIZE), ptr - START_OFFSET;
                && Next(old(layout.B), b) in old(layout.B)
                && (p == ptr <==> FitsInPlace(old(layout.B), b, adjust))
                && (p == 0 <==> !FitsInPlace(old(layout.B), b, adjust) && NoneFits(old(layout.B), adjust))
      // a null result leaves everything as it was, unless it is the answer of a free
      ensures p == 0 && (ptr == 0 || size != 0) ==> layout == old(layout) && ram == old(ram)
      ensures p != 0 ==> Live(p) && Tight(layout.B[p - START_OFFSET].size, AdjustRequestSize(size, ALIGN_SIZE))
      ensures p != 0 && p != ptr ==> p - START_OFFSET !in Used(old(layout.B))
      // the old contents are in the new block
      ensures p != 0 && ptr != 0 && size <= SIZE_MOD - ALIGN_SIZE ==>
                var cursize := old(layout.B)[ptr - START_OFFSET].size;
                SameBytes(ram.words, p, old(ram.words), ptr, if cursize < size then cursize else size)
      // every other allocation is untouched
      ensures var x := if ptr != 0 then ptr - START_OFFSET else p - START_OFFSET;
              Keeps(old(layout.B), x, old(ram.words), ram.words) && SameUsed(old(layout.B), x, layout.B)
    {
      ghost var h := Snapshot();
      p := 0;
      if ptr != 0 && size == 0 {
        assert ptr - START_OFFSET in Used(h.B);
        Free(ptr);
        UsedRelease(h, ptr - START_OFFSET);
      } else if ptr == 0 {
        p := Malloc(size);
        if p == 0 {
          KeepsNothing(h.B, -START_OFFSET, h.m);
        } else {
          UsedAllocate(h.B, p - START_OFFSET, AdjustRequestSize(size, ALIGN_SIZE));
        }
      } else {
        p := ReallocResize(ptr, size);
      }
    }

    // ---------- a request that adjusts to 0 ----------

    /** tlsf_realloc on a live block when adjust_request_size has answered 0: lines 1249-1258 run
        block_trim_used for 0 bytes. The pointer comes back as if the request had been met, on a
        block that reads as a sentinel, unless it was too small to be split. */
    method ReallocOversize(ptr: int) returns (p: int)
      requires Valid() && Live(ptr)
      modifies this`ram, this`flBitmap, slBitmap, blocks
      ensures p == ptr
      ensures var b, B := ptr - START_OFFSET, layout.B;
              && b in B && Next(B, b) in B
              && if B[b].size < BLOCK_HEADER_SIZE then Valid() && ram == old(ram)
                 else
                   && Oversized(old(Snapshot()), b, ram.words, RestSize(B, b)) && !HeaderOk(ram.words, B, b)
                   && 0 <= Class(RestSize(B, b)) < blocks.Length && blocks[Class(RestSize(B, b))] == b + 8
    {
      var block, adjust := ptr - START_OFFSET, 0;
      ghost var h := Snapshot();
      NextBlock(h, {}, block);
      ghost var x, y := FieldOf(h.B, block), FieldOf(h.B, Next(h.B, block));
      var split := BlockCanSplit(block, adjust, x);
      if split {
        var remaining, z := BlockSplit(block, adjust, x, y);
        BlockSetPrevUsed(remaining, SizeField(x.size - 8, true, z.prevFree));
        OversizeSplit(h, block, z);
        MergeRest(remaining, h, block);
        InsertRest(remaining, h, block);
      }
      p := ptr;
    }

    /** block_merge_next on the rest of the block, line 731 */
    method MergeRest(remaining: int, ghost h: Heap, ghost b: int)
      requires HeapInv(h, {}) && b in h.B && !h.B[b].free && BLOCK_HEADER_SIZE <= h.B[b].size
      requires remaining == b + 8 && Next(h.B, b) in h.B && layout.L == h.L && nul == h.nul
      requires slBitmap != blocks && slBitmap.Length == FL_INDEX_COUNT && blocks.Length == CLASS_COUNT
      requires flBitmap == h.flb && slBitmap[..] == h.sl && blocks[..] == h.heads
      requires Oversized(h, b, ram.words, h.B[b].size - 8) && Lists(ram.words, h.heads, nul, h.L)
      requires Read(ram.words, Next(h.B, b) + SIZE) == Pack(FieldOf(h.B, Next(h.B, b)).(prevFree := true))
      modifies this`ram, this`flBitmap, slBitmap, blocks
      ensures Oversized(h, b, ram.words, RestSize(h.B, b)) && HeadsListed(h, blocks[..])
      ensures Bitmaps(flBitmap, slBitmap[..], blocks[..], nul)
    {
      ghost var n := Next(h.B, b);
      ghost var y := FieldOf(h.B, n).(prevFree := true);
      NextBlock(h, {}, b);
      SumOf4(h.B[b].size);
      var next := BlockNext(remaining, SizeField(h.B[b].size - 8, true, false));
      var free := BlockIsFree(next, y);
      if free {
        assert TieOk(h.B, h.L, {}, n) && FiledOk(h.B, h.L, n) && BlockOk(h.B, n);
        ClassInRange(h.B[n].size);
        var size := BlockSize(next, y);
        var (fl, sl) := MappingInsert(size);
        OversizeUnlink(h, b, ram.words, h.B[b].size - 8, n, SL_INDEX_COUNT * fl + sl);
        UnlinkBlock(next, fl, sl, h.L);
        OversizeAbsorb(h, b, ram.words, n, y);
        BlockAbsorb(remaining, next, SizeField(h.B[b].size - 8, true, false), y);
      } else {
        ListsHaveHeads(h, ram.words, h.heads, h.L);
      }
    }

    /** block_insert of the rest of the block, line 732 */
    method InsertRest(remaining: int, ghost h: Heap, ghost b: int)
      requires HeapInv(h, {}) && b in h.B && !h.B[b].free && BLOCK_HEADER_SIZE <= h.B[b].size
      requires remaining == b + 8 && Next(h.B, b) in h.B && nul == h.nul
      requires slBitmap != blocks && slBitmap.Length == FL_INDEX_COUNT && blocks.Length == CLASS_COUNT
      requires Oversized(h, b, ram.words, RestSize(h.B, b)) && HeadsListed(h, blocks[..])
      requires Bitmaps(flBitmap, slBitmap[..], blocks[..], nul)
      modifies this`ram, this`flBitmap, slBitmap, blocks
      ensures Oversized(h, b, ram.words, RestSize(h.B, b))
      ensures 0 <= Class(RestSize(h.B, b)) < blocks.Length && blocks[Class(RestSize(h.B, b))] == remaining
    {
      RestFits(h, b);
      MultipleOf4(RestSize(h.B, b));
      ClassInRange(RestSize(h.B, b));
      var size := BlockSize(remaining, SizeField(RestSize(h.B, b), true, false));
      var (fl, sl) := MappingInsert(size);
      RestAway(h, b);
      assert SlOk(slBitmap[..], blocks[..], nul, fl, sl);
      OversizeInsert(h, b, ram.words, size, blocks[SL_INDEX_COUNT * fl + sl]);
      InsertFreeBlock(remaining, fl, sl);
    }

    /** tlsf_realloc of a live block to any size but 0. Null, or a block as large as the request, is
        what comes back exactly for requests of at most BLOCK_SIZE_MAX - ALIGN_SIZE bytes. */
    method ReallocLive(ptr: int, size: nat) returns (p: int)
      requires Valid() && Live(ptr) && 0 < size < SIZE_MOD
      modifies this`ram, this`flBitmap, this`layout, slBitmap, blocks
      ensures p == 0 || size <= SizeOf(Read(ram.words, p - START_OFFSET + SIZE))
              <==> size <= BLOCK_SIZE_MAX - ALIGN_SIZE
    {
      ghost var h, b := Snapshot(), ptr - START_OFFSET;
      AdjustCoversRequest(size);
      BlockBelow(h, b);
      if AdjustRequestSize(size, ALIGN_SIZE) == 0 {
        p := ReallocOversize(ptr);
        OversizeReads(h, b, ram.words);
      } else {
        p := Realloc(ptr, size);
        if p != 0 { SizeReads(Snapshot(), p - START_OFFSET); }
        if size > BLOCK_SIZE_MAX - ALIGN_SIZE { OversizeIsNeverCovered(h, b, size); }
      }
    }

    // ---------- pools ----------

    /** tlsf_add_pool */
    method AddPool(start: nat, bytes: nat) returns (pool: int)
      requires Valid() && start < SIZE_MOD && bytes < SIZE_MOD && !PoolTooLarge(bytes)
      requires start % ALIGN_SIZE == 0 && PoolAdmitted(bytes) ==> Unowned(Snapshot(), start, bytes)
      modifies this`ram, this`flBitmap, this`layout, slBitmap, blocks
      ensures Valid()
      ensures pool == if start % ALIGN_SIZE == 0 && PoolAdmitted(bytes) then start else 0
      ensures start % ALIGN_SIZE != 0 || !PoolAdmitted(bytes) ==> layout == old(layout) && ram == old(ram)
      // the free block with its sentinel fills the memory given, up to the last 7 bytes
      ensures start % ALIGN_SIZE == 0 && PoolAdmitted(bytes) ==>
                var b, size := start - 8, PoolBytes(bytes);
                && layout.B == NewPool(old(layout.B), b, size)
                && layout.pools == old(layout.pools)[b := b + 8 + size]
                && size % ALIGN_SIZE == 0 && start + size + 16 <= start + bytes < start + size + 24
                && Keeps(old(layout.B), 0, old(ram.words), ram.words) && SameUsed(old(layout.B), 0, layout.B)
    {
      var poolBytes := PoolBytes(bytes);
      PoolBytesExact(bytes);
      if start % ALIGN_SIZE != 0 { return 0; }
      if poolBytes < BLOCK_SIZE_MIN || poolBytes > BLOCK_SIZE_MAX { return 0; }
      NewPoolBlock(start, poolBytes);
      pool := start;
    }

    /** tlsf_add_pool, lines 1013-1023: the main free block and the sentinel. */
    method NewPoolBlock(start: nat, poolBytes: nat)
      requires Valid() && RegionFree(Snapshot(), start - 8, poolBytes)
      modifies this`ram, this`flBitmap, this`layout, slBitmap, blocks
      ensures Valid()
      ensures layout.B == NewPool(old(layout.B), start - 8, poolBytes)
      ensures layout.pools == old(layout.pools)[start - 8 := start + poolBytes]
      ensures Keeps(old(layout.B), 0, old(ram.words), ram.words) && SameUsed(old(layout.B), 0, layout.B)
    {
      ghost var h := Snapshot();
      ghost var k := NewPoolLinks(start - 8, poolBytes);
      PoolAttached(h, start - 8, poolBytes, k, flBitmap, slBitmap[..]);
      layout := Layout(NewPool(h.B, start - 8, poolBytes), InsertNode(h.L, start - 8, k, h.heads[k]),
                       h.pools[start - 8 := start + poolBytes]);
    }

    method NewPoolLinks(block: int, poolBytes: nat) returns (ghost k: int)
      requires Valid() && RegionFree(Snapshot(), block, poolBytes)
      modifies this`ram, this`flBitmap, slBitmap, blocks
      ensures 0 <= k < CLASS_COUNT && k == Class(poolBytes) && blocks[..] == old(blocks[..])[k := block]
      ensures Bitmaps(flBitmap, slBitmap[..], blocks[..], nul)
      ensures ram.words == AddPoolWords(old(ram.words), nul, block, poolBytes, old(blocks[..])[k])
    {
      ghost var h := Snapshot();
      ClassInRange(poolBytes);
      MultipleOf4(poolBytes);
      InitPoolBlock(block, poolBytes);
      var (fl, sl) := MappingInsert(poolBytes);
      k := SL_INDEX_COUNT * fl + sl;
      assert SlOk(h.sl, h.heads, h.nul, fl, sl);
      InsertFreeBlock(block, fl, sl);
      PoolWordsCommute(h, block, poolBytes, k);
      InitSentinel(block, poolBytes);
    }

    method InitPoolBlock(block: int, poolBytes: nat)
      requires poolBytes % 4 == 0
      modifies this`ram
      ensures ram.words == old(ram.words)[block + SIZE := Pack(SizeField(poolBytes, true, false))]
    {
      ghost var x := AnyWordIsPacked(Read(ram.words, block + SIZE));
      BlockSetSize(block, poolBytes, x);
      BlockSetFree(block, x.(size := poolBytes));
      BlockSetPrevUsed(block, x.(size := poolBytes, free := true));
    }

    /** Splits off a zero-size sentinel block. */
    method InitSentinel(block: int, poolBytes: nat)
      requires poolBytes % 4 == 0 && Read(ram.words, block + SIZE) == Pack(SizeField(poolBytes, true, false))
      modifies this`ram
      ensures var next := block + 8 + poolBytes;
              ram.words == old(ram.words)[next := block][next + SIZE := Pack(SizeField(0, false, true))]
    {
      var next := BlockLinkNext(block, SizeField(poolBytes, true, false));
      ghost var y := AnyWordIsPacked(Read(ram.words, next + SIZE));
      BlockSetSize(next, 0, y);
      BlockSetUsed(next, y.(size := 0));
      BlockSetPrevFree(next, y.(size := 0, free := false));
    }

    /** tlsf_remove_pool: its assertions hold for a pool with no allocation left */
    method RemovePool(pool: int)
      requires Valid() && PoolUnused(layout.B, layout.pools, pool - 8)
      modifies this`ram, this`flBitmap, this`layout, slBitmap, blocks
      ensures Valid()
      ensures layout.B == old(layout.B) - {pool - 8, old(layout.pools)[pool - 8]}
      ensures layout.pools == old(layout.pools) - {pool - 8}
      ensures Keeps(old(layout.B), 0, old(ram.words), ram.words)
    {
      ghost var h := Snapshot();
      var block := pool - 8;
      PoolEnds(h, block);
      var free := BlockIsFree(block, FieldOf(h.B, block));
      var next := BlockNext(block, FieldOf(h.B, block));
      var nextFree := BlockIsFree(next, FieldOf(h.B, next));
      var nextSize := BlockSize(next, FieldOf(h.B, next));
      assert free && !nextFree && nextSize == 0;
      var size := BlockSize(block, FieldOf(h.B, block));
      ClassInRange(size);
      var (fl, sl) := MappingInsert(size);
      RemoveFreeBlock(block, fl, sl, {});
      assert {} + {block} == {block};
      WithoutPoolInv(Snapshot(), block);
      layout := layout.(B := h.B - {block, next}, pools := h.pools - {block});
    }

    // ---------- the integrity checkers ----------

    /** The bitmaps are words, and all lists end. */
    ghost predicate Checkable(L: Nodes)
      reads this, slBitmap, blocks
    {
      && slBitmap.Length == FL_INDEX_COUNT && blocks.Length == CLASS_COUNT
      && MapWords(flBitmap, slBitmap[..]) && ListsEnd(ram.words, blocks[..], nul, L)
    }

    /** The size field of any word, and the next block. */
    method HeaderOf(block: int, ghost x: SizeField) returns (size: int, free: bool, prevFree: bool, next: int)
      requires Read(ram.words, block + SIZE) == Pack(x) && x.size % 4 == 0
      ensures var w := Read(ram.words, block + SIZE);
              size == SizeOf(w) && free == IsFree(w) && prevFree == IsPrevFree(w) && next == block + 8 + size
    {
      PackedField(x, 0);
      size := BlockSize(block, x);
      free := BlockIsFree(block, x);
      prevFree := BlockIsPrevFree(block, x);
      next := BlockNext(block, x);
    }

    /** The conditions tlsf_check insists on for a block of list (i, j), lines 879-886. Where one fails the
        kernel halts; here the status falls and the check goes on. */
    method CheckListed(block: int, i: int, j: int) returns (status: int)
      requires Read(ram.words, block + SIZE) >= 0
      ensures status <= 0 && (status == 0 <==> ListedOk(ram.words, block, i, j))
    {
      status := 0;
      ghost var x := AnyWordIsPacked(Read(ram.words, block + SIZE));
      var size, free, prevFree, next := HeaderOf(block, x);
      ghost var y := AnyWordIsPacked(Read(ram.words, next + SIZE));
      var _, nextFree, nextPrevFree, _ := HeaderOf(next, y);
      if !free { status := status - 1; }
      if prevFree { status := status - 1; }
      if nextFree { status := status - 1; }
      if !nextPrevFree { status := status - 1; }
      if size < BLOCK_SIZE_MIN { status := status - 1; }
      var (fli, sli) := MappingInsert(size);
      if !(fli == i && sli == j) { status := status - 1; }
    }

    /** The walk of tlsf_check along one list. */
    method CheckList(i: int, j: int, ghost L: Nodes) returns (status: int)
      requires Checkable(L) && 0 <= i < FL_INDEX_COUNT && 0 <= j < SL_INDEX_COUNT
      requires Starts(blocks[..], nul, L, SL_INDEX_COUNT * i + j)
      ensures var head := blocks[SL_INDEX_COUNT * i + j];
              status <= 0 && (status == 0 <==> ListOk(ram.words, blocks[..], nul, L, head, i, j))
    {
      status := 0;
      var block := blocks[SL_INDEX_COUNT * i + j];
      ghost var all := ListOk(ram.words, blocks[..], nul, L, block, i, j);
      while block != nul
        invariant block == nul || block in L
        invariant status <= 0
        invariant all <==> status == 0 && ListOk(ram.words, blocks[..], nul, L, block, i, j)
        decreases if block in L then L[block].rank + 1 else 0
      {
        assert Advances(ram.words, nul, L, block);
        var s := CheckListed(block, i, j);
        status := status + s;
        block := Read(ram.words, block + NEXT_FREE);
      }
    }

    /** tlsf_check on list (i, j): the bitmaps agree with each other and with the list. */
    method CheckCell(i: int, j: int, ghost L: Nodes) returns (status: int)
      requires Checkable(L) && 0 <= i < FL_INDEX_COUNT && 0 <= j < SL_INDEX_COUNT
      ensures status <= 0
      ensures status == 0 <==> CellOk(ram.words, flBitmap, slBitmap[..], blocks[..], nul, L, i, j)
    {
      assert Starts(blocks[..], nul, L, SL_INDEX_COUNT * i + j);
      ZeroIffNoBit(slBitmap[i]);
      status := 0;
      var flMap := Bit(flBitmap, i);
      var slList := slBitmap[i];
      var slMap := Bit(slList, j);
      var block := blocks[SL_INDEX_COUNT * i + j];
      if !flMap {
        if slMap { status := status - 1; }
      }
      if !slMap {
        if block != nul { status := status - 1; }
      } else {
        if slList == 0 { status := status - 1; }
        if block == nul { status := status - 1; }
        var s := CheckList(i, j, L);
        status := status + s;
      }
    }

    /** tlsf_check ends with status 0 exactly if every list agrees with its bits and every listed block with
        its header and list; in a valid state it does. */
    method Check(ghost L: Nodes) returns (status: int)
      requires Checkable(L)
      ensures status <= 0
      ensures status == 0 <==> CellsOk(ram.words, flBitmap, slBitmap[..], blocks[..], nul, L, CLASS_COUNT)
    {
      status := 0;
      ghost var m, flb, sl, heads := ram.words, flBitmap, slBitmap[..], blocks[..];
      for i := 0 to FL_INDEX_COUNT
        invariant status <= 0 && (status == 0 <==> CellsOk(m, flb, sl, heads, nul, L, SL_INDEX_COUNT * i))
      {
        for j := 0 to SL_INDEX_COUNT
          invariant status <= 0 && (status == 0 <==> CellsOk(m, flb, sl, heads, nul, L, SL_INDEX_COUNT * i + j))
        {
          var s := CheckCell(i, j, L);
          OneMoreCell(m, flb, sl, heads, nul, L, i, j);
          status := status + s;
        }
      }
    }

    /** tlsf_check in a valid state */
    method CheckValid() returns (status: int)
      requires Valid()
      ensures status == 0
    {
      InvPasses(Snapshot());
      status := Check(layout.L);
    }

    /** integrity_walker */
    method IntegrityWalker(block: int, size: int, prevStatus: bool) returns (thisStatus: bool, status: int)
      ensures var w := Read(ram.words, block + SIZE);
              && thisStatus == IsFree(w)
              && status <= 0 && (status == 0 <==> prevStatus == IsPrevFree(w) && size == SizeOf(w))
    {
      ghost var x := AnyWordIsPacked(Read(ram.words, block + SIZE));
      var thisBlockSize, free, thisPrevStatus, _ := HeaderOf(block, x);
      thisStatus, status := free, 0;
      if prevStatus != thisPrevStatus { status := status - 1; }
      if size != thisBlockSize { status := status - 1; }
    }

    /** tlsf_check_pool, on any words over which the walk from the pool's first block ends: tlsf_walk_pool
        with integrity_walker finds exactly the blocks whose prev-free flag is wrong. The flag of the
        header that ends the pool is not looked at. */
    method CheckPool(pool: int, ghost walk: seq<int>) returns (status: int)
      requires IsWalk(ram.words, walk) && walk[0] == pool - 8
      ensures status <= 0 && (status == 0 <==> PrevFlagsOk(ram.words, walk, |walk| - 1))
    {
      var block := pool - 8;
      ghost var i := 0;
      var prevStatus := false;
      status := 0;
      var size, next := SizeAndNext(block);
      while size != 0
        invariant AtHeader(ram.words, walk, i, block, size, prevStatus) && next == block + 8 + size
        invariant status <= 0 && (status == 0 <==> PrevFlagsOk(ram.words, walk, i))
        decreases |walk| - i
      {
        NextHeader(ram.words, walk, i, block, size, prevStatus);
        var s;
        prevStatus, s := IntegrityWalker(block, size, prevStatus);
        status := status + s;
        block := next;
        i := i + 1;
        size, next := SizeAndNext(block);
      }
      LastHeader(ram.words, walk, i, block, prevStatus);
    }

    method SizeAndNext(block: int) returns (size: int, next: int)
      ensures size == SizeOf(Read(ram.words, block + SIZE)) && next == block + 8 + size
    {
      ghost var x := AnyWordIsPacked(Read(ram.words, block + SIZE));
      PackedField(x, 0);
      size := BlockSize(block, x);
      next := BlockNext(block, x);
    }

    /** tlsf_check_pool in a valid state */
    method CheckPoolValid(pool: int) returns (status: int)
      requires Valid() && pool - 8 in layout.pools
      ensures status == 0
    {
      ghost var walk := InvPoolPasses(Snapshot(), pool - 8);
      status := CheckPool(pool, walk);
    }
  }
}
