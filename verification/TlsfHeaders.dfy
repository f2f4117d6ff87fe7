/** Agreement between the words in memory and the layout of blocks, and what a write inside one
    block leaves alone. */
module TlsfHeaders {
  import opened TlsfMemory
  import opened TlsfBlocks

  /** What the size field of block b should hold. */
  ghost function FieldOf(B: Blocks, b: int): SizeField
    requires b in B
  {
    SizeField(B[b].size, B[b].free, PrevFree(B, b))
  }

  /** The size field of b holds its size and both flags, and a free block is recorded in the
      prev_phys_block field of its next block. */
  ghost predicate HeaderOk(m: Memory, B: Blocks, b: int)
    requires b in B
  {
    && Read(m, b + SIZE) == Pack(FieldOf(B, b))
    && (B[b].free ==> Read(m, Next(B, b)) == b)
  }

  ghost predicate Headers(m: Memory, B: Blocks) {
    forall b {:trigger HeaderOk(m, B, b)} :: b in B ==> HeaderOk(m, B, b)
  }

  /** Only words at addresses from lo to hi may differ. */
  ghost predicate WritesWithin(m: Memory, m': Memory, lo: int, hi: int) {
    forall a {:trigger Read(m', a)} :: !(lo <= a <= hi) ==> Read(m', a) == Read(m, a)
  }

  /** The first size bytes of block b's payload are the same words. */
  ghost predicate PayloadKept(m: Memory, m': Memory, b: int, size: int) {
    forall a {:trigger Read(m', a)} :: b + START_OFFSET <= a < b + START_OFFSET + size ==> Read(m', a) == Read(m, a)
  }

  /** Every used block of the layout, except possibly x, keeps its payload. */
  ghost predicate Keeps(B: Blocks, x: int, m: Memory, m': Memory) {
    forall b {:trigger PayloadKept(m, m', b, B[b].size)} ::
      b in B && !B[b].free && b != x ==> PayloadKept(m, m', b, B[b].size)
  }

  /** Every used block of B, except possibly x, is a used block of the same size in B'. */
  ghost predicate SameUsed(B: Blocks, x: int, B': Blocks) {
    forall b {:trigger b in B'} :: b in B && !B[b].free && b != x ==>
      b in B' && !B'[b].free && B'[b].size == B[b].size
  }

  lemma KeepsTransitive(B: Blocks, x: int, m: Memory, m1: Memory, B1: Blocks, m2: Memory)
    requires Keeps(B, x, m, m1) && SameUsed(B, x, B1) && Keeps(B1, x, m1, m2)
    ensures Keeps(B, x, m, m2)
  {
    forall b | b in B && !B[b].free && b != x ensures PayloadKept(m, m2, b, B[b].size) {
      assert PayloadKept(m, m1, b, B[b].size);
      assert b in B1;
      assert PayloadKept(m1, m2, b, B1[b].size);
    }
  }

  /** The composition when the second step spares every used block. */
  lemma KeepsThenAll(B: Blocks, x: int, m: Memory, m1: Memory, B1: Blocks, m2: Memory)
    requires Keeps(B, x, m, m1) && SameUsed(B, x, B1) && Keeps(B1, 0, m1, m2) && Tiling(B1)
    ensures Keeps(B, x, m, m2)
  {
    forall b | b in B1 && !B1[b].free && b != x ensures PayloadKept(m1, m2, b, B1[b].size) {
      assert BlockOk(B1, b);
    }
    KeepsTransitive(B, x, m, m1, B1, m2);
  }

  lemma SameUsedTransitive(B: Blocks, x: int, B1: Blocks, B2: Blocks)
    requires SameUsed(B, x, B1) && SameUsed(B1, x, B2)
    ensures SameUsed(B, x, B2)
  {
    forall b | b in B && !B[b].free && b != x ensures b in B2 && !B2[b].free && B2[b].size == B[b].size {
      assert b in B1;
    }
  }

  // ---------- writes inside block b, up to its next block's size field ----------

  lemma LocalKeeps(m: Memory, m': Memory, B: Blocks, b: int)
    requires Tiling(B) && b in B && B[b].size != 0
    requires WritesWithin(m, m', b + SIZE, Next(B, b) + SIZE)
    ensures Keeps(B, b, m, m')
  {
    assert BlockOk(B, b);
    forall c | c in B && !B[c].free && c != b ensures PayloadKept(m, m', c, B[c].size) {
      assert Apart(B, b, c) && Apart(B, c, b);
    }
  }

  lemma LocalLinks(m: Memory, m': Memory, B: Blocks, b: int, c: int)
    requires Tiling(B) && b in B && B[b].size != 0 && c in B && c != b && B[c].size != 0
    requires WritesWithin(m, m', b + SIZE, Next(B, b) + SIZE)
    ensures Read(m', c + NEXT_FREE) == Read(m, c + NEXT_FREE)
    ensures Read(m', c + PREV_FREE) == Read(m, c + PREV_FREE)
  {
    assert BlockOk(B, b) && BlockOk(B, c);
    assert Apart(B, b, c) && Apart(B, c, b);
  }

  /** The header words of a block that is neither b nor its next one. */
  lemma LocalHeader(m: Memory, m': Memory, B: Blocks, b: int, c: int)
    requires Tiling(B) && b in B && B[b].size != 0 && c in B && c != b && c != Next(B, b)
    requires WritesWithin(m, m', b + SIZE, Next(B, b) + SIZE)
    ensures Read(m', c + SIZE) == Read(m, c + SIZE)
    ensures B[c].size != 0 ==> Read(m', Next(B, c)) == Read(m, Next(B, c))
  {
    assert BlockOk(B, b) && BlockOk(B, c);
    var n := Next(B, b);
    assert Apart(B, b, c) && Apart(B, c, b) && Apart(B, n, c) && Apart(B, c, n);
  }

  // ---------- the header words each change of layout needs ----------

  lemma MarkHeaders(m: Memory, m': Memory, B: Blocks, b: int, free: bool)
    requires Tiling(B) && Headers(m, B) && b in B && B[b].size != 0
    requires WritesWithin(m, m', b + SIZE, Next(B, b) + SIZE)
    requires Read(m', b + SIZE) == Pack(FieldOf(B, b).(free := free))
    requires var n := Next(B, b);
             n in B && Read(m', n + SIZE) == Pack(FieldOf(B, n).(prevFree := free)) && (free ==> Read(m', n) == b)
    ensures Headers(m', SetFree(B, b, free))
  {
    var B', n := SetFree(B, b, free), Next(B, b);
    assert BlockOk(B, b) && BlockOk(B, n);
    forall c | c in B' ensures HeaderOk(m', B', c) {
      assert HeaderOk(m, B, c) && BlockOk(B, c);
      if c != b && c != n { LocalHeader(m, m', B, b, c); }
    }
  }

  lemma SplitHeaders(m: Memory, m': Memory, B: Blocks, b: int, size: nat)
    requires Tiling(B) && Headers(m, B) && CanSplit(B, b, size)
    requires WritesWithin(m, m', b + SIZE, Next(B, b) + SIZE)
    requires var n, r := Next(B, b), b + 8 + size;
             && n in B
             && Read(m', b + SIZE) == Pack(FieldOf(B, b).(size := size))
             && Read(m', r + SIZE) == Pack(SizeField(B[b].size - size - 8, true, B[b].free))
             && Read(m', n + SIZE) == Pack(FieldOf(B, n).(prevFree := true))
             && Read(m', n) == r && (B[b].free ==> Read(m', r) == b)
    ensures Headers(m', Split(B, b, size))
  {
    TilingSplit(B, b, size);
    var B', n, r := Split(B, b, size), Next(B, b), b + 8 + size;
    forall c | c in B' ensures HeaderOk(m', B', c) {
      if c != r {
        assert HeaderOk(m, B, c) && BlockOk(B, c);
        if c != b && c != n { LocalHeader(m, m', B, b, c); }
      }
    }
  }

  lemma MergeHeaders(m: Memory, m': Memory, B: Blocks, b: int)
    requires Tiling(B) && Headers(m, B) && CanMerge(B, b)
    requires WritesWithin(m, m', b + SIZE, Next(B, Next(B, b)) + SIZE)
    requires var n := Next(B, b);
             var k := Next(B, n);
             && Read(m', b + SIZE) == Pack(FieldOf(B, b).(size := B[b].size + 8 + B[n].size))
             && Read(m', k + SIZE) == Pack(FieldOf(B, k).(prevFree := B[b].free))
             && (B[b].free ==> Read(m', k) == b)
    ensures Headers(m', Merge(B, b))
  {
    TilingMerge(B, b);
    var B', n := Merge(B, b), Next(B, b);
    var k := Next(B, n);
    forall c | c in B' ensures HeaderOk(m', B', c) {
      assert HeaderOk(m, B, c) && BlockOk(B, c);
      if c != b && c != k {
        assert Next(B', b) == k && BlockOk(B', c);
        LocalHeader(m, m', B', b, c);
      }
    }
  }

  // ---------- payload bytes ----------

  ghost predicate SameByte(m': Memory, p: int, m: Memory, q: int, i: int) {
    ByteAt(m', p + i) == ByteAt(m, q + i)
  }

  /** The first count bytes from p on are those that were at q. */
  ghost predicate SameBytes(m': Memory, p: int, m: Memory, q: int, count: int) {
    forall i {:trigger SameByte(m', p, m, q, i)} :: 0 <= i < count ==> SameByte(m', p, m, q, i)
  }

  lemma KeptBytes(m: Memory, m': Memory, b: int, size: int, count: int)
    requires PayloadKept(m, m', b, size) && b % 8 == 0 && size % 8 == 0 && count <= size
    ensures SameBytes(m', b + START_OFFSET, m, b + START_OFFSET, count)
  {
    var p := b + START_OFFSET;
    forall i | 0 <= i < count ensures SameByte(m', p, m, p, i) {
      var a := p + i;
      assert Read(m', a - a % 8) == Read(m, a - a % 8);
    }
  }

  lemma SameBytesTransitive(m'': Memory, p: int, m': Memory, q: int, m: Memory, r: int, count: int)
    requires SameBytes(m'', p, m', q, count) && SameBytes(m', q, m, r, count)
    ensures SameBytes(m'', p, m, r, count)
  {
    forall i | 0 <= i < count ensures SameByte(m'', p, m, r, i) {
      assert SameByte(m'', p, m', q, i) && SameByte(m', q, m, r, i);
    }
  }

  /** Writes to the payload of a used block touch no header. */
  lemma PayloadHeaders(m: Memory, m': Memory, B: Blocks, b: int)
    requires Tiling(B) && Headers(m, B) && b in B && B[b].size != 0 && !B[b].free
    requires WritesWithin(m, m', b + START_OFFSET, b + START_OFFSET + B[b].size - 1)
    ensures Headers(m', B)
  {
    assert BlockOk(B, b) && BlockOk(B, Next(B, b));
    assert WritesWithin(m, m', b + SIZE, Next(B, b) + SIZE);
    forall c | c in B ensures HeaderOk(m', B, c) {
      assert HeaderOk(m, B, c) && BlockOk(B, c);
      if c != b && c != Next(B, b) { LocalHeader(m, m', B, b, c); }
    }
  }

  /** One step of a byte-wise copy. */
  lemma CopyStep(m: Memory, before: Memory, after: Memory, dst: int, src: int, i: nat, n: nat)
    requires i < n && dst % 8 == 0 && (dst + n <= src || src + n <= dst)
    requires SameBytes(before, dst, m, src, i)
    requires forall c {:trigger ByteAt(before, c)} :: !(dst <= c < dst + i) ==> ByteAt(before, c) == ByteAt(m, c)
    requires WritesWithin(m, before, dst, dst + n - 1)
    requires after == WriteByte(before, dst + i, ByteAt(before, src + i))
    ensures SameBytes(after, dst, m, src, i + 1)
    ensures forall c {:trigger ByteAt(after, c)} :: !(dst <= c < dst + i + 1) ==> ByteAt(after, c) == ByteAt(m, c)
    ensures WritesWithin(m, after, dst, dst + n - 1)
  {
    var v := ByteAt(before, src + i);
    assert v == ByteAt(m, src + i);
    ByteWritten(before, after, dst + i, v);
    forall j | 0 <= j < i + 1 ensures SameByte(after, dst, m, src, j) {
      assert j < i ==> SameByte(before, dst, m, src, j);
    }
    WordWritten(m, before, after, dst, i, n, v);
  }

  lemma ByteWritten(before: Memory, after: Memory, a: int, v: int)
    requires 0 <= v < 256 && after == WriteByte(before, a, v)
    ensures forall c {:trigger ByteAt(after, c)} :: ByteAt(after, c) == if c == a then v else ByteAt(before, c)
  {
    forall c ensures ByteAt(after, c) == if c == a then v else ByteAt(before, c) {
      ByteAtWriteByte(before, a, v, c);
    }
  }

  lemma WordWritten(m: Memory, before: Memory, after: Memory, dst: int, i: nat, n: nat, v: int)
    requires i < n && dst % 8 == 0 && WritesWithin(m, before, dst, dst + n - 1)
    requires after == WriteByte(before, dst + i, v)
    ensures WritesWithin(m, after, dst, dst + n - 1)
  {
    var a := dst + i - (dst + i) % 8;
    WordOfByte(dst, i);
    forall c | !(dst <= c <= dst + n - 1) ensures Read(after, c) == Read(m, c) {
      assert Read(before, c) == Read(m, c) && c != a;
    }
  }

  lemma WordOfByte(dst: int, i: nat)
    requires dst % 8 == 0
    ensures dst <= dst + i - (dst + i) % 8 <= dst + i
  {
  }
}
