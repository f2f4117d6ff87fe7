/** Sizes and size classes of the two-level segregated-fit allocator (sys/mm/tlsf.c).
    Sizes are natural numbers below SIZE_MOD; additions that wrap in size_t wrap here. */
module TlsfMapping {
  import opened Bits

  const SIZE_MOD: nat := 0x1_0000_0000_0000_0000
  const ALIGN_SIZE: nat := 8
  const SL_INDEX_COUNT_LOG2: nat := 5
  const SL_INDEX_COUNT: nat := 32
  const FL_INDEX_SHIFT: nat := 8
  const FL_INDEX_COUNT: nat := 25
  const SMALL_BLOCK_SIZE: nat := 256
  const CLASS_COUNT: nat := 800
  const BLOCK_HEADER_OVERHEAD: nat := 8
  const BLOCK_HEADER_SIZE: nat := 32
  const BLOCK_SIZE_MIN: nat := 24
  const BLOCK_SIZE_MAX: nat := 0x1_0000_0000

  // ---------- request sizes ----------

  /** align_up: (x + (align - 1)) & ~(align - 1) in size_t, for a power of two align. */
  function AlignUp(x: nat, align: nat): nat
    requires align > 0
  {
    var y := (x + (align - 1)) % SIZE_MOD;
    y - y % align
  }

  function AlignDown(x: nat, align: nat): nat
    requires align > 0
  {
    x - x % align
  }

  /** adjust_request_size: 0 means that the request cannot be met. */
  function AdjustRequestSize(size: nat, align: nat): nat
    requires align > 0
  {
    if size == 0 then 0
    else
      var aligned := AlignUp(size, align);
      if aligned < BLOCK_SIZE_MAX then
        if aligned > BLOCK_SIZE_MIN then aligned else BLOCK_SIZE_MIN
      else 0
  }

  /** The pool size tlsf_add_pool computes; fewer bytes than the overhead wrap around. */
  function PoolBytes(bytes: nat): nat
    requires bytes < SIZE_MOD
  {
    AlignDown((bytes + SIZE_MOD - 2 * BLOCK_HEADER_OVERHEAD) % SIZE_MOD, ALIGN_SIZE)
  }

  // ---------- size classes ----------

  /** tlsf_fls_sizet for a size that is not zero, by halves of the 64-bit word. */
  function FlsSizeT(size: nat): (fl: nat)
    requires size > 0
    ensures fl == Log2(size)
    ensures size >= SMALL_BLOCK_SIZE ==> fl >= 8
  {
    var high := size / WORD_MOD;
    Log2AtLeast256(size);
    if high != 0 then
      Log2Of32(size);
      32 + Log2(high)
    else Log2(size % WORD_MOD)
  }

  lemma Pow2Plus8(k: nat)
    ensures Pow2(k + 8) == 256 * Pow2(k)
  {
    assert Pow2(k + 2) == 4 * Pow2(k);
    assert Pow2(k + 4) == 4 * Pow2(k + 2);
    assert Pow2(k + 6) == 4 * Pow2(k + 4);
    assert Pow2(k + 8) == 4 * Pow2(k + 6);
  }

  lemma Log2Of32(size: nat)
    requires size >= WORD_MOD
    ensures Log2(size) == 32 + Log2(size / WORD_MOD)
  {
    var k := Log2(size / WORD_MOD);
    Log2Bounds(size / WORD_MOD);
    Pow2Plus8(k);
    Pow2Plus8(k + 8);
    Pow2Plus8(k + 16);
    Pow2Plus8(k + 24);
    Log2Unique(size, k + 32);
  }

  lemma Log2AtLeast256(size: nat)
    ensures size >= SMALL_BLOCK_SIZE ==> Log2(size) >= 8
  {
    if size >= SMALL_BLOCK_SIZE {
      Log2AtLeast(size, 8);
      Pow2Plus8(0);
    }
  }

  /** x ^ p for a power of two p: the one bit of p changes. */
  function Flip(x: nat, p: nat): int
    requires p > 0
  {
    if x / p % 2 == 1 then x - p else x + p
  }

  /** mapping_insert: the first- and second-level index of the list for blocks of this size. */
  function MappingInsert(size: nat): (int, int) {
    if size < SMALL_BLOCK_SIZE then
      (0, size / (SMALL_BLOCK_SIZE / SL_INDEX_COUNT))
    else
      var fl := FlsSizeT(size);
      (fl - (FL_INDEX_SHIFT - 1), Flip(Shr(size, fl - SL_INDEX_COUNT_LOG2), SL_INDEX_COUNT))
  }

  /** The size mapping_search hands to mapping_insert. */
  function SearchSize(size: nat): nat {
    if size >= SMALL_BLOCK_SIZE then
      var fl := FlsSizeT(size);
      size + (Pow2(fl - SL_INDEX_COUNT_LOG2) - 1)
    else size
  }

  function MappingSearch(size: nat): (int, int) {
    MappingInsert(SearchSize(size))
  }

  /** Position in blocks[][] read row by row, so that the order of lists is the lexicographic one. */
  function Class(size: nat): int {
    var (fl, sl) := MappingInsert(size);
    SL_INDEX_COUNT * fl + sl
  }

  /** The distance between neighbouring classes at the given size. */
  function Spacing(size: nat): (d: nat)
    ensures d > 0
  {
    if size < SMALL_BLOCK_SIZE then SMALL_BLOCK_SIZE / SL_INDEX_COUNT
    else Pow2(FlsSizeT(size) - SL_INDEX_COUNT_LOG2)
  }

  /** The least size in the class of the given size. */
  function ClassFloor(size: nat): (f: nat)
    ensures f <= size
  {
    RemainderAtMost(size, Spacing(size));
    size - size % Spacing(size)
  }

  // ---------- proofs ----------

  lemma RemainderAtMost(a: nat, d: nat)
    requires d > 0
    ensures 0 <= a % d <= a
  {
    if a < d { DivModUnique(a, d, 0, a); }
  }

  /** What mapping_insert computes for a large size, free of bit tricks. */
  lemma LargeClass(size: nat)
    requires size >= SMALL_BLOCK_SIZE
    ensures Spacing(size) * 32 == Pow2(FlsSizeT(size))
    ensures Spacing(size) * 32 <= size < Spacing(size) * 64
    ensures 32 <= size / Spacing(size) < 64
    ensures MappingInsert(size) == (FlsSizeT(size) - 7, size / Spacing(size) - 32)
    ensures Class(size) == 32 * (FlsSizeT(size) - 8) + size / Spacing(size)
  {
    var k := FlsSizeT(size) - 5;
    Log2Bounds(size);
    assert Pow2(k + 2) == 4 * Pow2(k);
    assert Pow2(k + 4) == 4 * Pow2(k + 2);
    assert Pow2(k + 5) == 2 * Pow2(k + 4);
    ShrIsDivision(size, k);
    QuotientBetween(size, Pow2(k), 32, 64);
  }

  lemma QuotientBetween(a: nat, d: nat, lo: nat, hi: nat)
    requires d > 0 && d * lo <= a < d * hi
    ensures lo <= a / d < hi
  {
    var q, r := a / d, a % d;
    assert a == d * q + r;
    assert d * (q + 1) == d * q + d;
    if q < lo {
      MulMonotone(d, q + 1, lo);
    }
    if q >= hi {
      MulMonotone(d, hi, q);
    }
  }

  lemma MulMonotone(d: nat, a: nat, b: nat)
    requires a <= b
    ensures d * a <= d * b
  {
  }

  /** Every size below block_size_max has a list; mapping_insert leaves the table exactly at it. */
  lemma ClassInRange(size: nat)
    requires size < SIZE_MOD
    ensures var (fl, sl) := MappingInsert(size);
            0 <= fl && 0 <= sl < SL_INDEX_COUNT && (fl < FL_INDEX_COUNT <==> size < BLOCK_SIZE_MAX)
  {
    if size >= SMALL_BLOCK_SIZE {
      LargeClass(size);
      Log2AtLeast(size, 32);
      Pow2Of32();
    }
  }

  lemma DivMonotone(a: nat, b: nat, d: nat)
    requires a <= b && d > 0
    ensures a / d <= b / d
  {
    var q, q' := a / d, b / d;
    assert a == d * q + a % d && b == d * q' + b % d;
    assert d * (q' + 1) == d * q' + d;
    if q' < q {
      MulMonotone(d, q' + 1, q);
    }
  }

  lemma Log2Monotone(a: nat, b: nat)
    requires 0 < a <= b
    ensures Log2(a) <= Log2(b)
  {
    Log2Bounds(a);
    Log2AtLeast(b, Log2(a));
  }

  /** mapping_insert is monotone in the lexicographic order of the lists. */
  lemma ClassMonotone(s: nat, t: nat)
    requires s <= t
    ensures Class(s) <= Class(t)
  {
    if s >= SMALL_BLOCK_SIZE {
      LargeClass(s);
      LargeClass(t);
      Log2Monotone(s, t);
      if FlsSizeT(s) == FlsSizeT(t) {
        DivMonotone(s, t, Spacing(s));
      }
    } else if t >= SMALL_BLOCK_SIZE {
      LargeClass(t);
    }
  }

  lemma FloorFacts(size: nat)
    ensures ClassFloor(size) == Spacing(size) * (size / Spacing(size))
    ensures size - Spacing(size) < ClassFloor(size)
  {
    assert size == Spacing(size) * (size / Spacing(size)) + size % Spacing(size);
  }

  lemma FloorOfLarge(size: nat)
    requires size >= SMALL_BLOCK_SIZE
    ensures ClassFloor(size) >= 32 * Spacing(size) >= SMALL_BLOCK_SIZE
    ensures 32 * Spacing(size) == Pow2(FlsSizeT(size))
  {
    FloorFacts(size);
    LargeClass(size);
    MulMonotone(Spacing(size), 32, size / Spacing(size));
    Pow2AtLeast8(FlsSizeT(size) - 5);
  }

  lemma Pow2AtLeast8(k: nat)
    requires k >= 3
    ensures Pow2(k) >= 8
  {
    Pow2Monotone(3, k);
    assert Pow2(3) == 8;
  }

  /** A size is in the class of z or a later one exactly when it is at least the floor of z's class. */
  lemma ClassOrder(s: nat, z: nat)
    ensures Class(s) >= Class(z) <==> s >= ClassFloor(z)
  {
    FloorFacts(z);
    var f := ClassFloor(z);
    if z < SMALL_BLOCK_SIZE {
      if s >= SMALL_BLOCK_SIZE { LargeClass(s); }
    } else {
      LargeClass(z);
      FloorSameClass(z);
      if s >= f {
        ClassMonotone(f, s);
      } else if s >= SMALL_BLOCK_SIZE {
        LargeClass(s);
        LargeClass(f);
        Log2Monotone(s, f);
        if FlsSizeT(s) == FlsSizeT(z) {
          QuotientBelow(s, z / Spacing(z), Spacing(z));
        }
      }
    }
  }

  lemma QuotientBelow(s: nat, q: nat, d: nat)
    requires d > 0 && s < d * q
    ensures s / d < q
  {
    var q' := s / d;
    assert s == d * q' + s % d;
    if q <= q' {
      MulMonotone(d, q, q');
    }
  }

  lemma FloorSameClass(z: nat)
    requires z >= SMALL_BLOCK_SIZE
    ensures ClassFloor(z) >= SMALL_BLOCK_SIZE
    ensures FlsSizeT(ClassFloor(z)) == FlsSizeT(z)
    ensures Class(ClassFloor(z)) == Class(z)
  {
    FloorFacts(z);
    FloorOfLarge(z);
    LargeClass(z);
    var d, q := Spacing(z), z / Spacing(z);
    var f := d * q;
    Log2Bounds(z);
    Log2Unique(f, FlsSizeT(z));
    LargeClass(f);
    DivModUnique(f, d, q, 0);
  }

  // ---------- what the allocator relies on ----------

  /** The least block size that a search for an adjusted request finds. */
  function Threshold(request: nat): nat {
    ClassFloor(SearchSize(request))
  }

  /** Good fit: the lists from mapping_search on are exactly the ones whose blocks are all large
      enough, and rounding the request up costs at most a thirty-second part of it. */
  lemma GoodFit(request: nat, size: nat)
    requires request % ALIGN_SIZE == 0
    ensures Class(size) >= Class(SearchSize(request)) <==> size >= Threshold(request)
    ensures request <= Threshold(request)
    ensures request < SMALL_BLOCK_SIZE ==> Threshold(request) == request
    ensures request >= SMALL_BLOCK_SIZE ==> Threshold(request) <= request + request / 32
  {
    ClassOrder(size, SearchSize(request));
    if request >= SMALL_BLOCK_SIZE {
      var d, z := Spacing(request), SearchSize(request);
      LargeClass(request);
      FloorFacts(z);
      if FlsSizeT(z) != FlsSizeT(request) {
        Log2Monotone(request, z);
        Pow2Monotone(FlsSizeT(request) + 1, FlsSizeT(z));
        Log2Bounds(request);
        FloorOfLarge(z);
      }
    }
  }

  /** align_up without wrap-around gives the next multiple. */
  lemma AlignUpExact(x: nat, align: nat)
    requires align > 0 && x + (align - 1) < SIZE_MOD
    ensures x <= AlignUp(x, align) < x + align
    ensures AlignUp(x, align) % align == 0
  {
    var y := x + (align - 1);
    assert y % SIZE_MOD == y;
    FloorIsMultiple(y, align);
  }

  lemma FloorIsMultiple(y: nat, d: nat)
    requires d > 0
    ensures 0 <= y % d < d && y % d <= y && (y - y % d) % d == 0
  {
    RemainderAtMost(y, d);
    var q, r := y / d, y % d;
    assert y - r == d * q;
    DivModUnique(d * q, d, q, 0);
  }

  /** A multiple of align that covers the size. */
  predicate Covers(m: nat, size: nat, align: nat)
    requires align > 0
  {
    m % align == 0 && size <= m
  }

  /** There is one multiple in any align numbers in a row. */
  lemma MultiplesApart(x: nat, y: nat, align: nat)
    requires align > 0 && x % align == 0 && y % align == 0 && x < y
    ensures x + align <= y
  {
    var i, j := x / align, y / align;
    assert x == align * i && y == align * j;
    if j <= i { MulMonotone(align, j, i); }
    MulMonotone(align, i + 1, j);
    assert align * (i + 1) == align * i + align;
  }

  lemma AlignUpIsLeast(size: nat, align: nat, m: nat)
    requires align > 0 && size + (align - 1) < SIZE_MOD && Covers(m, size, align)
    ensures AlignUp(size, align) <= m
  {
    AlignUpExact(size, align);
    if m < AlignUp(size, align) { MultiplesApart(m, AlignUp(size, align), align); }
  }

  /** Where align_up does not wrap, the adjusted size is the least multiple that covers the request, or
      the least block size; it is 0 exactly if no multiple below block_size_max covers the request. */
  lemma AdjustIsLeast(size: nat, align: nat)
    requires 0 < size && 0 < align && size + (align - 1) < SIZE_MOD
    ensures var r := AdjustRequestSize(size, align);
            && (r == 0 <==>
                  forall m: nat {:trigger Covers(m, size, align)} :: Covers(m, size, align) ==> m >= BLOCK_SIZE_MAX)
            && (r != 0 ==> size <= r && BLOCK_SIZE_MIN <= r < BLOCK_SIZE_MAX)
            && (r > BLOCK_SIZE_MIN ==> Covers(r, size, align) && r < size + align)
    ensures forall m: nat {:trigger Covers(m, size, align)} :: Covers(m, size, align) && BLOCK_SIZE_MIN <= m ==>
              AdjustRequestSize(size, align) <= m
  {
    AlignUpExact(size, align);
    assert Covers(AlignUp(size, align), size, align);
    forall m: nat | Covers(m, size, align) ensures AlignUp(size, align) <= m { AlignUpIsLeast(size, align, m); }
  }

  /** A block size is as large as a request exactly if it is as large as the adjusted request. */
  lemma AdjustFitsBlock(size: nat, block: nat)
    requires 0 < size <= BLOCK_SIZE_MAX - ALIGN_SIZE && BLOCK_SIZE_MIN <= block && block % ALIGN_SIZE == 0
    ensures size <= block <==> AdjustRequestSize(size, ALIGN_SIZE) <= block
    ensures AdjustRequestSize(size, ALIGN_SIZE) != 0
  {
    AdjustCoversRequest(size);
    AdjustIsLeast(size, ALIGN_SIZE);
    if size <= block { assert Covers(block, size, ALIGN_SIZE); }
  }

  /** The pool that tlsf_add_pool makes of so many bytes: with the 16 of its overhead it is the largest
      multiple of 8 within them. It is admitted from 40 bytes on to below 2^32 + 24. */
  lemma PoolBytesExact(bytes: nat)
    requires bytes < SIZE_MOD
    ensures BLOCK_SIZE_MIN <= PoolBytes(bytes) <= BLOCK_SIZE_MAX <==> PoolAdmitted(bytes)
    ensures PoolBytes(bytes) == BLOCK_SIZE_MAX <==> PoolTooLarge(bytes)
    ensures 2 * BLOCK_HEADER_OVERHEAD <= bytes ==>
              && PoolBytes(bytes) % ALIGN_SIZE == 0
              && PoolBytes(bytes) + 2 * BLOCK_HEADER_OVERHEAD <= bytes
              && bytes < PoolBytes(bytes) + 2 * BLOCK_HEADER_OVERHEAD + ALIGN_SIZE
  {
    if bytes >= 16 {
      assert (bytes + SIZE_MOD - 16) % SIZE_MOD == bytes - 16;
      FloorIsMultiple(bytes - 16, ALIGN_SIZE);
    } else {
      assert (bytes + SIZE_MOD - 16) % SIZE_MOD == bytes + SIZE_MOD - 16;
    }
  }

  /** The sizes of the memory that tlsf_add_pool makes a pool of. */
  predicate PoolAdmitted(bytes: nat) {
    BLOCK_SIZE_MIN + 16 <= bytes < BLOCK_SIZE_MAX + 24
  }

  /** Of these, the ones whose pool has no list. */
  predicate PoolTooLarge(bytes: nat) {
    BLOCK_SIZE_MAX + 16 <= bytes < BLOCK_SIZE_MAX + 24
  }

  /** The mask expression of align_up, bit by bit. */
  lemma AlignUpIsMask(x: nat, k: nat)
    requires k < 64
    ensures Pow2(k) < Pow2(64) == SIZE_MOD
    ensures AlignUp(x, Pow2(k)) == And((x + (Pow2(k) - 1)) % SIZE_MOD, SIZE_MOD - Pow2(k))
  {
    Pow2Of64();
    Pow2Monotone(k, 63);
    var y := (x + (Pow2(k) - 1)) % SIZE_MOD;
    AndClearsLowBits(y, 64, k);
    LowBitsIsRemainder(y, k);
  }

  lemma Pow2Of64()
    ensures Pow2(64) == SIZE_MOD && Pow2(63) == 0x8000_0000_0000_0000
  {
    Pow2Of32();
    Pow2Plus8(32);
    Pow2Plus8(40);
    Pow2Plus8(48);
    Pow2Plus8(56);
    assert Pow2(64) == 2 * Pow2(63);
  }

  /** An adjusted size is 0 or a block size. */
  lemma AdjustedSize(size: nat)
    requires size < SIZE_MOD
    ensures var a := AdjustRequestSize(size, ALIGN_SIZE);
            a == 0 || (BLOCK_SIZE_MIN <= a < BLOCK_SIZE_MAX && a % ALIGN_SIZE == 0)
  {
  }

  /** The adjusted size covers the request exactly when align_up does not wrap in size_t. */
  lemma AdjustCoversRequest(size: nat)
    requires 0 < size < SIZE_MOD
    ensures var a := AdjustRequestSize(size, ALIGN_SIZE);
            (a == 0 || size <= a) <==> size <= SIZE_MOD - ALIGN_SIZE
    ensures AdjustRequestSize(size, ALIGN_SIZE) != 0 && size <= SIZE_MOD - ALIGN_SIZE
            <==> size <= BLOCK_SIZE_MAX - ALIGN_SIZE
  {
  }

  /** The pool that tlsf_add_pool admits and mapping_insert has no list for: 2^32 bytes and 16 more
      for the overhead. */
  lemma PoolAtLimit()
    ensures PoolBytes(BLOCK_SIZE_MAX + 16) == BLOCK_SIZE_MAX
    ensures MappingInsert(BLOCK_SIZE_MAX).0 >= FL_INDEX_COUNT
  {
    ClassInRange(BLOCK_SIZE_MAX);
  }

  /** A request of SIZE_MAX bytes is adjusted to the minimum block size. */
  lemma AdjustWraps()
    ensures AdjustRequestSize(SIZE_MOD - 1, ALIGN_SIZE) == BLOCK_SIZE_MIN
  {
  }

  /** tlsf_memalign's search size, lines 1135-1142. */
  function AlignedRequestSize(adjust: nat, align: nat): nat
    requires align > 0
  {
    var withGap := AdjustRequestSize((adjust + align + BLOCK_HEADER_SIZE) % SIZE_MOD, align);
    if adjust != 0 && align > ALIGN_SIZE then withGap else adjust
  }

  /** The search size leaves room for the gap for every power of two but the largest one. */
  lemma AlignedRequestRoom(adjust: nat, e: nat)
    requires BLOCK_SIZE_MIN <= adjust < BLOCK_SIZE_MAX && 3 < e < 64
    ensures Pow2(e) > ALIGN_SIZE
    ensures var r := AlignedRequestSize(adjust, Pow2(e));
            (r == 0 || r >= adjust + Pow2(e) + BLOCK_HEADER_SIZE) <==> e < 63
  {
    Pow2AtLeast8(e - 1);
    Pow2Of64();
    if e < 63 {
      Pow2Monotone(e, 62);
      AlignedRequestFits(adjust, Pow2(e));
    } else {
      AlignedRequestWraps(adjust);
    }
  }

  /** The room for the gap does not wrap, up to 2^62. */
  lemma AlignedRequestIs(adjust: nat, align: nat)
    requires BLOCK_SIZE_MIN <= adjust < BLOCK_SIZE_MAX && ALIGN_SIZE < align <= 0x4000_0000_0000_0000
    ensures AlignedRequestSize(adjust, align) == AdjustRequestSize(adjust + align + BLOCK_HEADER_SIZE, align)
  {
    assert (adjust + align + BLOCK_HEADER_SIZE) % SIZE_MOD == adjust + align + BLOCK_HEADER_SIZE;
  }

  lemma AdjustFits(x: nat, align: nat)
    requires 0 < align && 0 < x && x + align <= SIZE_MOD
    ensures var r := AdjustRequestSize(x, align); r == 0 || (x <= r < BLOCK_SIZE_MAX)
  {
    AlignUpExact(x, align);
  }

  lemma AlignedRequestFits(adjust: nat, align: nat)
    requires BLOCK_SIZE_MIN <= adjust < BLOCK_SIZE_MAX && ALIGN_SIZE < align <= 0x4000_0000_0000_0000
    ensures var r := AlignedRequestSize(adjust, align);
            r == 0 || (r >= adjust + align + BLOCK_HEADER_SIZE && r < BLOCK_SIZE_MAX)
  {
    AlignedRequestIs(adjust, align);
    AdjustFits(adjust + align + BLOCK_HEADER_SIZE, align);
  }

  /** What tlsf_memalign searches for is 0 or a block size. */
  lemma AlignedRequestIsSize(size: nat, align: nat, e: nat)
    requires size < SIZE_MOD && align == Pow2(e) && e < 63
    ensures align <= 0x4000_0000_0000_0000
    ensures var adjust := AdjustRequestSize(size, ALIGN_SIZE);
            var r := AlignedRequestSize(adjust, align);
            r != 0 ==>
              && BLOCK_SIZE_MIN <= r < BLOCK_SIZE_MAX && r % ALIGN_SIZE == 0
              && BLOCK_SIZE_MIN <= adjust < BLOCK_SIZE_MAX && adjust % ALIGN_SIZE == 0
              && r >= adjust + (if align > ALIGN_SIZE then align + BLOCK_HEADER_SIZE else 0)
  {
    var adjust := AdjustRequestSize(size, ALIGN_SIZE);
    AdjustedSize(size);
    Pow2Of64();
    Pow2Monotone(e, 62);
    if adjust != 0 && align > ALIGN_SIZE {
      AlignedRequestFits(adjust, align);
      AlignedRequestMultiple(adjust, align, e);
    }
  }

  lemma AlignedRequestMultiple(adjust: nat, align: nat, e: nat)
    requires BLOCK_SIZE_MIN <= adjust < BLOCK_SIZE_MAX
    requires align == Pow2(e) && ALIGN_SIZE < align <= 0x4000_0000_0000_0000
    ensures AlignedRequestSize(adjust, align) % ALIGN_SIZE == 0
  {
    AlignedRequestIs(adjust, align);
    Above8(e);
    AdjustMultiple(adjust + align + BLOCK_HEADER_SIZE, e);
  }

  lemma Above8(e: nat)
    requires Pow2(e) > 8
    ensures e > 3
  {
    if e <= 3 { Pow2AtMost8(e); }
  }

  lemma AdjustMultiple(x: nat, e: nat)
    requires e >= 3 && x + Pow2(e) < SIZE_MOD
    ensures AdjustRequestSize(x, Pow2(e)) % ALIGN_SIZE == 0
  {
    var aligned := AlignUp(x, Pow2(e));
    assert aligned % ALIGN_SIZE == 0 by { AlignUpOf8(x, e); }
    assert AdjustRequestSize(x, Pow2(e)) in {0, BLOCK_SIZE_MIN, aligned};
  }

  lemma AlignUpOf8(x: nat, e: nat)
    requires e >= 3 && x + Pow2(e) < SIZE_MOD
    ensures AlignUp(x, Pow2(e)) % ALIGN_SIZE == 0
  {
    var aligned := AlignUp(x, Pow2(e));
    AlignUpAligned(x, e);
    AlignedTo8Too(aligned, e);
  }

  lemma AlignedTo8Too(a: nat, e: nat)
    requires e >= 3 && Aligned(a, e)
    ensures a % 8 == 0
  {
    AlignedWeaken(a, e, 3);
    AlignedTo8(a);
  }

  lemma AlignedRequestWraps(adjust: nat)
    requires BLOCK_SIZE_MIN <= adjust < BLOCK_SIZE_MAX
    ensures AlignedRequestSize(adjust, 0x8000_0000_0000_0000) == BLOCK_SIZE_MIN
  {
    assert AlignUp(adjust + 0x8000_0000_0000_0000 + BLOCK_HEADER_SIZE, 0x8000_0000_0000_0000) == 0;
  }

  /** Where mapping_search starts: in the table, or past its end for a request no block can meet. */
  lemma SearchStart(request: nat)
    requires 0 < request < BLOCK_SIZE_MAX
    ensures var (fl, sl) := MappingSearch(request);
            && 0 <= fl && 0 <= sl < SL_INDEX_COUNT
            && SL_INDEX_COUNT * fl + sl == Class(SearchSize(request))
            && (fl >= FL_INDEX_COUNT ==> Threshold(request) >= BLOCK_SIZE_MAX)
  {
    var z := SearchSize(request);
    if request >= SMALL_BLOCK_SIZE { LargeClass(request); }
    assert z < 2 * BLOCK_SIZE_MAX;
    ClassInRange(z);
    if z >= BLOCK_SIZE_MAX {
      FloorOfLarge(z);
      Log2AtLeast(z, 32);
      Pow2Monotone(32, FlsSizeT(z));
      Pow2Of32();
    }
  }

  // ---------- the gap in front of an aligned block ----------

  /** x is a multiple of 2^e. */
  predicate Aligned(x: nat, e: nat) {
    LowBits(x, e) == 0
  }

  lemma AlignedIsMultiple(x: nat, e: nat)
    ensures Aligned(x, e) <==> x % Pow2(e) == 0
  {
    LowBitsIsRemainder(x, e);
  }

  lemma AlignedTo8(x: nat)
    ensures Aligned(x, 3) <==> x % 8 == 0
  {
    LowBitsIsRemainder(x, 3);
    assert Pow2(3) == 8;
  }

  lemma {:induction false} AlignedWeaken(x: nat, e: nat, f: nat)
    requires Aligned(x, e) && f <= e
    ensures Aligned(x, f)
  {
    if f > 0 { AlignedWeaken(x / 2, e - 1, f - 1); }
  }

  lemma {:induction false} AlignedPlus(x: nat, e: nat)
    requires Aligned(x, e)
    ensures Aligned(x + Pow2(e), e)
  {
    if e > 0 { AlignedPlus(x / 2, e - 1); }
  }

  lemma {:induction false} OnlyAligned(x: nat, y: nat, e: nat)
    requires Aligned(x, e) && Aligned(y, e) && x <= y < x + Pow2(e)
    ensures y == x
  {
    if e > 0 { OnlyAligned(x / 2, y / 2, e - 1); }
  }

  /** A multiple of a power of two below a larger one leaves room for another. */
  lemma {:induction false} AlignedBelow(x: nat, e: nat, n: nat)
    requires Aligned(x, e) && e <= n && x < Pow2(n)
    ensures x + Pow2(e) <= Pow2(n)
  {
    if e > 0 { AlignedBelow(x / 2, e - 1, n - 1); }
  }

  lemma AlignUpAligned(x: nat, e: nat)
    requires x + (Pow2(e) - 1) < SIZE_MOD
    ensures x <= AlignUp(x, Pow2(e)) < x + Pow2(e) && Aligned(AlignUp(x, Pow2(e)), e)
  {
    AlignUpExact(x, Pow2(e));
    AlignedIsMultiple(AlignUp(x, Pow2(e)), e);
  }

  lemma Pow2AtLeast16(e: nat)
    requires e > 3
    ensures Pow2(e) >= 16 && Pow2(e) % 16 == 0
  {
    var k := Pow2(e - 4);
    assert Pow2(e) == 2 * Pow2(e - 1) && Pow2(e - 1) == 2 * Pow2(e - 2);
    assert Pow2(e - 2) == 2 * Pow2(e - 3) && Pow2(e - 3) == 2 * k;
    DivModUnique(Pow2(e), 16, k, 0);
  }

  lemma Pow2AtMost8(e: nat)
    requires e <= 3
    ensures Pow2(e) <= 8
  {
    assert Pow2(3) == 8;
    Pow2Monotone(e, 3);
  }

  /** align_ptr: the next multiple of align, if that does not wrap. */
  method AlignPtr(x: nat, align: nat, ghost e: nat) returns (aligned: nat)
    requires align == Pow2(e) && x + align <= SIZE_MOD
    ensures x <= aligned < x + align && Aligned(aligned, e)
  {
    AlignUpAligned(x, e);
    aligned := AlignUp(x, align);
  }

  /** The first candidate of tlsf_memalign. */
  lemma FirstGap(ptr: nat, aligned: nat, e: nat)
    requires ptr % ALIGN_SIZE == 0 && ptr <= aligned < ptr + Pow2(e) && Aligned(aligned, e)
    ensures aligned % 8 == 0
    ensures Pow2(e) <= ALIGN_SIZE ==> aligned == ptr
    ensures Pow2(e) > ALIGN_SIZE ==> e > 3
  {
    AlignedTo8(ptr);
    AlignedTo8(aligned);
    if e <= 3 {
      AlignedWeaken(ptr, 3, e);
      OnlyAligned(ptr, aligned, e);
      Pow2AtMost8(e);
    } else {
      AlignedWeaken(aligned, e, 3);
      Pow2AtLeast16(e);
    }
  }

  /** A gap too small for a block moves the address to the next boundary. */
  lemma BumpedGap(aligned: nat, gap: nat, offset: nat, bumped: nat, e: nat)
    requires e > 3 && Aligned(aligned, e) && aligned % 8 == 0
    requires 0 < gap < BLOCK_HEADER_SIZE && gap % 8 == 0 && gap < Pow2(e)
    requires offset == if BLOCK_HEADER_SIZE - gap > Pow2(e) then BLOCK_HEADER_SIZE - gap else Pow2(e)
    requires aligned + offset <= bumped < aligned + offset + Pow2(e) && Aligned(bumped, e)
    ensures BLOCK_HEADER_SIZE - gap <= bumped - aligned <= Pow2(e) + BLOCK_SIZE_MIN - gap && bumped % 8 == 0
  {
    AlignedTo8(bumped);
    AlignedWeaken(bumped, e, 3);
    Pow2AtLeast16(e);
    if BLOCK_HEADER_SIZE - gap <= Pow2(e) {
      AlignedPlus(aligned, e);
      OnlyAligned(aligned + Pow2(e), bumped, e);
    } else {
      GapOf8(aligned, bumped);
      ShortBump(gap, Pow2(e), bumped - aligned);
    }
  }

  /** Steps of 8 that start below a step of 32. */
  lemma ShortBump(gap: nat, align: nat, bump: nat)
    requires 0 < gap && gap % 8 == 0 && align >= 16 && align % 16 == 0 && BLOCK_HEADER_SIZE - gap > align
    requires bump % 8 == 0 && BLOCK_HEADER_SIZE - gap <= bump < BLOCK_HEADER_SIZE - gap + align
    ensures bump <= align + BLOCK_SIZE_MIN - gap
  {
    assert gap == 8;
  }

  /** Line 1152: the first candidate. */
  method FirstAligned(ptr: nat, align: nat, ghost e: nat) returns (aligned: nat)
    requires align == Pow2(e) && e <= 63 && ptr % ALIGN_SIZE == 0
    requires ptr + align <= SIZE_MOD
    ensures ptr <= aligned < ptr + align && Aligned(aligned, e) && aligned % 8 == 0
    ensures align <= ALIGN_SIZE ==> aligned == ptr
    ensures align > ALIGN_SIZE ==> e > 3
    ensures aligned + align < SIZE_MOD ==> aligned + 2 * align <= SIZE_MOD
  {
    aligned := AlignPtr(ptr, align, e);
    FirstGap(ptr, aligned, e);
    if aligned + align < SIZE_MOD {
      AlignedPlus(aligned, e);
      Pow2Of64();
      AlignedBelow(aligned + align, e, 64);
    }
  }

  /** Lines 1159-1164: the next aligned address that leaves a large enough gap. */
  method BumpGap(aligned: nat, align: nat, gap: nat, ghost e: nat) returns (bumped: nat)
    requires align == Pow2(e) && e > 3 && Aligned(aligned, e) && aligned % 8 == 0
    requires 0 < gap < BLOCK_HEADER_SIZE && gap % 8 == 0 && gap < align
    requires aligned + 2 * align <= SIZE_MOD && aligned + align + BLOCK_HEADER_SIZE <= SIZE_MOD
    ensures Aligned(bumped, e) && bumped % 8 == 0
    ensures BLOCK_HEADER_SIZE - gap <= bumped - aligned <= align + BLOCK_SIZE_MIN - gap
    ensures gap <= aligned ==> LeastGap(aligned - gap, bumped, e)
  {
    var gapRemain := BLOCK_HEADER_SIZE - gap;
    var offset := if gapRemain > align then gapRemain else align;
    bumped := AlignPtr(aligned + offset, align, e);
    BumpedGap(aligned, gap, offset, bumped, e);
    if gap <= aligned { BumpedIsLeast(aligned - gap, aligned, offset, bumped, e); }
  }

  /** tlsf_memalign, lines 1151-1167: how far the aligned address lies after ptr. The gap is 0 or
      large enough to be a block of its own, and never uses more than the room reserved for it. */
  method AlignedGap(ptr: nat, align: nat, ghost e: nat) returns (aligned: nat, gap: nat)
    requires align == Pow2(e) && e <= 63 && ptr % ALIGN_SIZE == 0
    requires ptr + align <= SIZE_MOD
    requires align > ALIGN_SIZE ==> ptr + align + BLOCK_SIZE_MIN + BLOCK_HEADER_SIZE <= SIZE_MOD
    ensures aligned == ptr + gap && Aligned(aligned, e) && gap % ALIGN_SIZE == 0
    ensures gap == 0 || BLOCK_HEADER_SIZE <= gap <= align + BLOCK_SIZE_MIN
    ensures align <= ALIGN_SIZE ==> gap == 0
    ensures LeastGap(ptr, aligned, e)
  {
    aligned := FirstAligned(ptr, align, e);
    gap := aligned - ptr;
    GapOf8(ptr, aligned);
    FirstIsLeast(ptr, aligned, e);
    if gap != 0 && gap < BLOCK_HEADER_SIZE {
      var bumped := BumpGap(aligned, align, gap, e);
      GapOf8(ptr, bumped);
      gap := gap + (bumped - aligned);  // bumped - ptr
      aligned := bumped;
    }
  }

  /** An aligned address from ptr on that leaves no gap, or one that is large enough for a block. */
  predicate GoodGap(ptr: nat, a: nat, e: nat) {
    Aligned(a, e) && (a == ptr || ptr + BLOCK_HEADER_SIZE <= a)
  }

  /** There is no such address before. */
  ghost predicate LeastGap(ptr: nat, aligned: nat, e: nat) {
    GoodGap(ptr, aligned, e) && forall a: nat {:trigger GoodGap(ptr, a, e)} :: GoodGap(ptr, a, e) ==> aligned <= a
  }

  lemma AlignedAfter(x: nat, y: nat, e: nat)
    requires Aligned(x, e) && Aligned(y, e) && x < y
    ensures x + Pow2(e) <= y
  {
    if y < x + Pow2(e) { OnlyAligned(x, y, e); }
  }

  lemma FirstIsLeast(ptr: nat, aligned: nat, e: nat)
    requires ptr <= aligned < ptr + Pow2(e) && Aligned(aligned, e)
    ensures forall a: nat {:trigger GoodGap(ptr, a, e)} :: GoodGap(ptr, a, e) ==> aligned <= a
  {
    forall a: nat | GoodGap(ptr, a, e) ensures aligned <= a {
      if a < aligned { AlignedAfter(a, aligned, e); }
    }
  }

  /** With the first candidate too near, the bumped one is the next that will do. */
  lemma BumpedIsLeast(ptr: nat, aligned: nat, offset: nat, bumped: nat, e: nat)
    requires ptr < aligned < ptr + BLOCK_HEADER_SIZE && aligned < ptr + Pow2(e)
    requires Aligned(aligned, e) && Aligned(bumped, e)
    requires offset == var rest := ptr + BLOCK_HEADER_SIZE - aligned; if rest > Pow2(e) then rest else Pow2(e)
    requires aligned + offset <= bumped < aligned + offset + Pow2(e)
    ensures LeastGap(ptr, bumped, e)
  {
    FirstIsLeast(ptr, aligned, e);
    forall a: nat | GoodGap(ptr, a, e) ensures bumped <= a {
      AlignedAfter(aligned, a, e);
      if a < bumped { AlignedAfter(a, bumped, e); }
    }
  }

  lemma GapOf8(p: nat, a: nat)
    requires p % 8 == 0 && a % 8 == 0
    ensures (a - p) % 8 == 0
  {
  }
}
