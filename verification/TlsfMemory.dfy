/** Word-addressed memory and the packed size field of a block header. */
module TlsfMemory {

  /** The 64-bit words of memory by byte address; a word never written reads as 0. */
  type Memory = map<int, int>

  datatype Ram = Ram(words: Memory)

  function Read(m: Memory, a: int): int {
    if a in m then m[a] else 0
  }

  // offsets of the block_header_t fields
  const SIZE: int := 8
  const NEXT_FREE: int := 16
  const PREV_FREE: int := 24
  const START_OFFSET: int := 16

  // ---------- the size field: the two low bits are flags ----------

  function SizeOf(w: int): int { w - w % 4 }
  predicate IsFree(w: int) { w % 2 == 1 }
  predicate IsPrevFree(w: int) { w % 4 >= 2 }

  /** size | (w & 3), for a size whose two low bits are clear. */
  function WithSize(w: int, size: int): int { size + w % 4 }
  function WithFree(w: int): int { if IsFree(w) then w else w + 1 }
  function WithUsed(w: int): int { if IsFree(w) then w - 1 else w }
  function WithPrevFree(w: int): int { if IsPrevFree(w) then w else w + 2 }
  function WithPrevUsed(w: int): int { if IsPrevFree(w) then w - 2 else w }

  /** The three things a size field holds. */
  datatype SizeField = SizeField(size: int, free: bool, prevFree: bool)

  function Pack(x: SizeField): int {
    x.size + (if x.free then 1 else 0) + (if x.prevFree then 2 else 0)
  }

  /** The packed field answers every query, and each update changes its part of it only. */
  lemma PackedField(x: SizeField, size: int)
    requires x.size % 4 == 0 && size % 4 == 0
    ensures var w := Pack(x);
            && SizeOf(w) == x.size && (IsFree(w) <==> x.free) && (IsPrevFree(w) <==> x.prevFree)
            && WithSize(w, size) == Pack(x.(size := size))
            && WithFree(w) == Pack(x.(free := true)) && WithUsed(w) == Pack(x.(free := false))
            && WithPrevFree(w) == Pack(x.(prevFree := true)) && WithPrevUsed(w) == Pack(x.(prevFree := false))
  {
  }

  /** Every word is a packed field. */
  lemma AnyWordIsPacked(w: int) returns (x: SizeField)
    ensures x.size % 4 == 0 && w == Pack(x)
  {
    var q, r := w / 4, w % 4;
    x := SizeField(4 * q, r == 1 || r == 3, r >= 2);
  }

  // ---------- bytes ----------

  /** Byte i of a word, least significant first. */
  function ByteOf(w: int, i: nat): (v: int)
    ensures 0 <= v < 256
    decreases i
  {
    if i == 0 then w % 256 else ByteOf(w / 256, i - 1)
  }

  function SetByte(w: int, i: nat, v: int): int
    decreases i
  {
    if i == 0 then w - w % 256 + v else 256 * SetByte(w / 256, i - 1, v) + w % 256
  }

  lemma {:induction false} ByteOfSetByte(w: int, i: nat, v: int, j: nat)
    requires 0 <= v < 256
    ensures ByteOf(SetByte(w, i, v), j) == if i == j then v else ByteOf(w, j)
    decreases i
  {
    if i > 0 {
      assert SetByte(w, i, v) / 256 == SetByte(w / 256, i - 1, v);
      if j > 0 { ByteOfSetByte(w / 256, i - 1, v, j - 1); }
    } else {
      assert SetByte(w, i, v) / 256 == w / 256;
    }
  }

  /** The byte at any address. */
  function ByteAt(m: Memory, a: int): (v: int)
    ensures 0 <= v < 256
  {
    ByteOf(Read(m, a - a % 8), a % 8)
  }

  function WriteByte(m: Memory, a: int, v: int): Memory {
    m[a - a % 8 := SetByte(Read(m, a - a % 8), a % 8, v)]
  }

  lemma ByteAtWriteByte(m: Memory, a: int, v: int, c: int)
    requires 0 <= v < 256
    ensures ByteAt(WriteByte(m, a, v), c) == if c == a then v else ByteAt(m, c)
  {
    if c - c % 8 == a - a % 8 {
      ByteOfSetByte(Read(m, a - a % 8), a % 8, v, c % 8);
    }
  }

  /** The numbers of k bytes. */
  function ByteRange(k: nat): nat {
    if k == 0 then 1 else 256 * ByteRange(k - 1)
  }

  lemma {:induction false} BytesAreNumber(w: nat, w': nat, k: nat)
    requires w < ByteRange(k) && w' < ByteRange(k) && forall i: nat :: i < k ==> ByteOf(w, i) == ByteOf(w', i)
    ensures w == w'
  {
    if k > 0 {
      forall i: nat | i < k - 1 ensures ByteOf(w / 256, i) == ByteOf(w' / 256, i) {
        assert ByteOf(w, i + 1) == ByteOf(w', i + 1);
      }
      BytesAreNumber(w / 256, w' / 256, k - 1);
      assert ByteOf(w, 0) == ByteOf(w', 0);
    }
  }

  /** A 64-bit word is its eight bytes. */
  lemma BytesAreWord(m: Memory, m': Memory, a: int)
    requires a % 8 == 0 && 0 <= Read(m, a) < 0x1_0000_0000_0000_0000 && 0 <= Read(m', a) < 0x1_0000_0000_0000_0000
    requires forall c :: a <= c < a + 8 ==> ByteAt(m', c) == ByteAt(m, c)
    ensures Read(m', a) == Read(m, a)
  {
    forall i: nat | i < 8 ensures ByteOf(Read(m', a), i) == ByteOf(Read(m, a), i) {
      var c := a + i;
      assert c % 8 == i && ByteAt(m', c) == ByteAt(m, c);
    }
    assert ByteRange(4) == 0x1_0000_0000 && ByteRange(8) == 0x1_0000_0000_0000_0000;
    BytesAreNumber(Read(m', a), Read(m, a), 8);
  }
}
