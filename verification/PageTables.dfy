/** Four-level page tables in memory (sys/mm/vmm.c, sys/include/mm/vmm.h; section 4.5 of the Intel
    SDM, Volume 3A): entries, tables, walks, and what storing an entry does to every walk. */
module PageTables {
  import opened Bits

  // ---------- entries ----------

  const PTE_PRESENT: nat := 1
  const PTE_WRITABLE: nat := 2
  const PTE_NX: nat := 0x8000_0000_0000_0000
  const PTE_ADDR_MASK: nat := 0x000F_FFFF_FFFF_F000
  const PAGE_SIZE: nat := 4096
  const PHYS_LIMIT: nat := 0x10_0000_0000_0000
  const VIRT_LIMIT: nat := 0x1_0000_0000_0000_0000
  const TABLE_LEN: nat := 512

  predicate Present(e: nat) {
    And(e, PTE_PRESENT) != 0
  }

  /** PTE_GET_ADDR */
  function GetAddr(e: nat): nat {
    And(e, PTE_ADDR_MASK)
  }

  /** The entry that get_next_level writes for a new table. */
  function TableEntry(frame: nat): nat {
    Or(Or(Or(frame, PTE_PRESENT), PTE_WRITABLE), PTE_NX)
  }

  predicate IsFrame(f: nat) {
    f % PAGE_SIZE == 0 && 0 < f < PHYS_LIMIT
  }

  lemma {:induction false} AndOverOr(a: nat, b: nat, m: nat)
    ensures And(Or(a, b), m) == Or(And(a, m), And(b, m))
    decreases m
  {
    if m != 0 {
      AndOverOr(a / 2, b / 2, m / 2);
      var o, x, y := Or(a, b), And(a, m), And(b, m);
      OrHalves(a, b);
      AndHalves(o, m);
      AndHalves(a, m);
      AndHalves(b, m);
      OrHalves(x, y);
      DoubleAndBit(And(o, m), Or(x, y), And(o / 2, m / 2));
    }
  }

  lemma DoubleAndBit(x: nat, y: nat, h: nat)
    requires x / 2 == h && y / 2 == h && x % 2 == y % 2
    ensures x == y
  {
  }

  lemma AndHalves(x: nat, y: nat)
    ensures And(x, y) / 2 == And(x / 2, y / 2) && (And(x, y) % 2 == 1 <==> x % 2 == 1 && y % 2 == 1)
  {
  }

  lemma OrHalves(x: nat, y: nat)
    ensures Or(x, y) / 2 == Or(x / 2, y / 2) && (Or(x, y) % 2 == 1 <==> x % 2 == 1 || y % 2 == 1)
  {
  }

  lemma {:induction false} AndHighBit(n: nat, k: nat, m: nat)
    requires m < Pow2(n) && n <= k
    ensures And(Pow2(k), m) == 0
  {
    if m != 0 { AndHighBit(n - 1, k - 1, m / 2); }
  }

  lemma Pow2Of64()
    ensures Pow2(12) == PAGE_SIZE && Pow2(52) == PHYS_LIMIT && Pow2(63) == PTE_NX
    ensures PTE_ADDR_MASK == Pow2(52) - Pow2(12)
  {
    assert Pow2(12) == 4096;
    Pow2Of32();
    Pow2Sum(32, 20);
    assert Pow2(20) == 0x10_0000;
    Pow2Sum(52, 11);
    assert Pow2(11) == 0x800;
  }

  /** An entry is present if its lowest bit is set, and its address is bits 12 to 51 of it. */
  lemma EntryFields(high: nat, frame: nat, low: nat)
    requires frame < 0x100_0000_0000 && low < PAGE_SIZE
    ensures var e := high * PHYS_LIMIT + frame * PAGE_SIZE + low;
            GetAddr(e) == frame * PAGE_SIZE && (Present(e) <==> low % 2 == 1)
  {
    var x := frame * PAGE_SIZE + low;
    var e := high * PHYS_LIMIT + x;
    PartsOfEntry(high, frame, low);
    AddrOfEntry(e, x);
    PresentBit(e);
  }

  lemma AddrOfEntry(e: nat, x: nat)
    requires e % PHYS_LIMIT == x
    ensures GetAddr(e) == x - x % PAGE_SIZE
  {
    AddrWithinLimit(e);
    AddrIsFloor(x);
  }

  lemma PresentBit(e: nat)
    ensures Present(e) <==> e % 2 == 1
  {
    AndOne(e);
  }

  lemma PartsOfEntry(high: nat, frame: nat, low: nat)
    requires frame < 0x100_0000_0000 && low < PAGE_SIZE
    ensures var x := frame * PAGE_SIZE + low;
            && x < PHYS_LIMIT && (high * PHYS_LIMIT + x) % PHYS_LIMIT == x
            && x % PAGE_SIZE == low && (high * PHYS_LIMIT + x) % 2 == low % 2
  {
    var x := frame * PAGE_SIZE + low;
    DivModUnique(high * PHYS_LIMIT + x, PHYS_LIMIT, high, x);
    DivModUnique(x, PAGE_SIZE, frame, low);
    DivModUnique(high * PHYS_LIMIT + x, 2, high * 0x8_0000_0000_0000 + frame * 0x800 + low / 2, low % 2);
  }

  lemma AddrWithinLimit(e: nat)
    ensures GetAddr(e) == GetAddr(e % PHYS_LIMIT)
  {
    Pow2Of64();
    AndDropsHigh(e, 52, PTE_ADDR_MASK);
    LowBitsIsRemainder(e, 52);
  }

  lemma AddrIsFloor(x: nat)
    requires x < PHYS_LIMIT
    ensures GetAddr(x) == x - x % PAGE_SIZE
  {
    Pow2Of64();
    AndClearsLowBits(x, 52, 12);
    LowBitsIsRemainder(x, 12);
  }

  lemma AndOne(e: nat)
    ensures And(e, 1) == e % 2
  {
  }

  lemma {:induction false} AndDropsHigh(a: nat, n: nat, m: nat)
    requires m < Pow2(n)
    ensures And(a, m) == And(LowBits(a, n), m)
  {
    if m != 0 && a != 0 {
      AndDropsHigh(a / 2, n - 1, m / 2);
      assert LowBits(a, n) / 2 == LowBits(a / 2, n - 1) && LowBits(a, n) % 2 == a % 2;
    } else if a == 0 {
      LowBitsOfZero(n);
    }
  }

  /** The entry that get_next_level writes is the frame's address, with the bits for present, writable and
      no-execute. */
  lemma TableEntryIs(f: nat)
    requires IsFrame(f)
    ensures TableEntry(f) == f + PTE_PRESENT + PTE_WRITABLE + PTE_NX
  {
    PresentWritable(f);
    Pow2Of64();
    Pow2Monotone(52, 62);
    OrHigh(f + 3, 63);
  }

  lemma PresentWritable(f: nat)
    requires f % PAGE_SIZE == 0
    ensures Or(Or(f, PTE_PRESENT), PTE_WRITABLE) == f + 3
  {
    Pow2Of64();
    LowBitsIsRemainder(f, 12);
    OrLow(f, PTE_PRESENT, 12);
    OrLow(f / 2, 1, 11);
    OrTwo(f);
  }

  lemma OrTwo(f: nat)
    requires f % 2 == 0 && Or(f / 2, 1) == f / 2 + 1
    ensures Or(f + 1, 2) == f + 3
  {
    assert (f + 1) / 2 == f / 2;
  }

  lemma {:induction false} OrLow(a: nat, b: nat, k: nat)
    requires LowBits(a, k) == 0 && b < Pow2(k)
    ensures Or(a, b) == a + b
  {
    if a != 0 && b != 0 { OrLow(a / 2, b / 2, k - 1); }
  }

  lemma {:induction false} OrHigh(a: nat, k: nat)
    requires a < Pow2(k)
    ensures Or(a, Pow2(k)) == a + Pow2(k)
  {
    if a != 0 { OrHigh(a / 2, k - 1); }
  }

  lemma AddrOfFrame(f: nat)
    requires f % PAGE_SIZE == 0 && f < PHYS_LIMIT
    ensures GetAddr(f) == f
  {
    Pow2Of64();
    AndClearsLowBits(f, 52, 12);
    LowBitsIsRemainder(f, 12);
  }

  /** An entry made of a frame and flags is present if the flags say so, and its address is the
      frame's exactly when the flags have no address bit that the frame does not. */
  lemma EntryOfFrame(f: nat, flags: nat)
    requires f % PAGE_SIZE == 0 && f < PHYS_LIMIT
    ensures Present(Or(f, flags)) <==> Present(flags)
    ensures GetAddr(Or(f, flags)) == Or(f, GetAddr(flags))
  {
    AddrOfFrame(f);
    AndOverOr(f, flags, PTE_ADDR_MASK);
    AndOverOr(f, flags, PTE_PRESENT);
    assert And(f, 1) == 0;
  }

  lemma AddrOfTableEntry(f: nat)
    requires IsFrame(f)
    ensures Present(TableEntry(f)) && GetAddr(TableEntry(f)) == f
  {
    AddrOfFrame(f);
    var a, b := Or(f, PTE_PRESENT), Or(Or(f, PTE_PRESENT), PTE_WRITABLE);
    AndOverOr(f, PTE_PRESENT, PTE_ADDR_MASK);
    AndOverOr(a, PTE_WRITABLE, PTE_ADDR_MASK);
    AndOverOr(b, PTE_NX, PTE_ADDR_MASK);
    assert And(1, PTE_ADDR_MASK) == 0;
    assert And(2, PTE_ADDR_MASK) == 0;
    Pow2Of64();
    AndHighBit(52, 63, PTE_ADDR_MASK);
    AndOverOr(f, PTE_PRESENT, 1);
    AndOverOr(a, PTE_WRITABLE, 1);
    AndOverOr(b, PTE_NX, 1);
    assert And(1, 1) == 1;
  }

  // ---------- indexes ----------

  /** Number of the page of a virtual address: its bits 12 to 47. */
  function PageOf(virt: nat): (p: nat)
    ensures p < 0x10_0000_0000
  {
    virt / PAGE_SIZE % 0x10_0000_0000
  }

  /** (virt >> shift) & 0x1FF */
  function IndexOf(virt: nat, shift: nat): (i: nat)
    ensures i < TABLE_LEN
  {
    assert And(Shr(virt, shift), 0x1FF) <= 0x1FF;
    And(Shr(virt, shift), 0x1FF)
  }

  /** An address is a page number, an offset of twelve bits below it, and sixteen bits above that no table
      is indexed by. */
  lemma PageOfAddress(high: nat, p: nat, o: nat)
    requires p < 0x10_0000_0000 && o < PAGE_SIZE
    ensures PageOf(high * 0x1_0000_0000_0000 + p * PAGE_SIZE + o) == p
  {
    var virt := high * 0x1_0000_0000_0000 + p * PAGE_SIZE + o;
    DivModUnique(virt, PAGE_SIZE, high * 0x10_0000_0000 + p, o);
    DivModUnique(high * 0x10_0000_0000 + p, 0x10_0000_0000, high, p);
  }

  /** The same with the four indexes of the page, nine bits each. */
  lemma IndexesOfAddress(high: nat, a: nat, b: nat, c: nat, d: nat, o: nat)
    requires a < TABLE_LEN && b < TABLE_LEN && c < TABLE_LEN && d < TABLE_LEN && o < PAGE_SIZE
    ensures var p := PageOf(high * 0x1_0000_0000_0000 + a * 0x80_0000_0000 + b * 0x4000_0000 + c * 0x20_0000
                            + d * 0x1000 + o);
            Top(p) == a && Third(p) == b && Second(p) == c && Last(p) == d
  {
    var p := a * 0x800_0000 + b * 0x4_0000 + c * 0x200 + d;
    PageOfAddress(high, p, o);
    assert p * PAGE_SIZE == a * 0x80_0000_0000 + b * 0x4000_0000 + c * 0x20_0000 + d * 0x1000;
    DivModUnique(p, 0x200, a * 0x4_0000 + b * 0x200 + c, d);
    DivModUnique(p, 0x4_0000, a * 0x200 + b, c * 0x200 + d);
    DivModUnique(p, 0x800_0000, a, b * 0x4_0000 + c * 0x200 + d);
  }

  /** The four indexes of a page number, from the top. */
  function Top(p: nat): nat { p / 0x800_0000 % TABLE_LEN }
  function Third(p: nat): nat { p / 0x4_0000 % TABLE_LEN }
  function Second(p: nat): nat { p / 0x200 % TABLE_LEN }
  function Last(p: nat): nat { p % TABLE_LEN }

  lemma AndLowMask(a: nat)
    ensures And(a, 0x1FF) == a % TABLE_LEN
  {
    LowBitsIsRemainder(a, 9);
    assert Pow2(9) == 512;
    AndLowOnes(a, 9);
  }

  lemma {:induction false} AndLowOnes(a: nat, k: nat)
    ensures And(a, Pow2(k) - 1) == LowBits(a, k)
  {
    if k > 0 {
      AndLowOnes(a / 2, k - 1);
      assert (Pow2(k) - 1) / 2 == Pow2(k - 1) - 1;
      if a == 0 { LowBitsOfZero(k); }
    }
  }

  lemma {:induction false} LowBitsOfZero(k: nat)
    ensures LowBits(0, k) == 0
  {
    if k > 0 { LowBitsOfZero(k - 1); }
  }

  /** The code's shifts and masks find the four indexes of the page number. */
  lemma IndexesOfPage(virt: nat)
    ensures IndexOf(virt, 39) == Top(PageOf(virt)) && IndexOf(virt, 30) == Third(PageOf(virt))
    ensures IndexOf(virt, 21) == Second(PageOf(virt)) && IndexOf(virt, 12) == Last(PageOf(virt))
  {
    LowIndexes(virt);
    HighIndexes(virt);
  }

  lemma LowIndexes(virt: nat)
    ensures IndexOf(virt, 21) == Second(PageOf(virt)) && IndexOf(virt, 12) == Last(PageOf(virt))
  {
    assert Pow2(0) == 1;
    IndexOfPage(virt, 0, 0x800_0000);
    assert Pow2(9) == 0x200;
    IndexOfPage(virt, 9, 0x4_0000);
  }

  lemma HighIndexes(virt: nat)
    ensures IndexOf(virt, 39) == Top(PageOf(virt)) && IndexOf(virt, 30) == Third(PageOf(virt))
  {
    assert Pow2(9) == 0x200;
    Pow2Sum(9, 9);
    IndexOfPage(virt, 18, 0x200);
    Pow2Sum(9, 18);
    IndexOfPage(virt, 27, 1);
  }

  lemma IndexOfPage(virt: nat, s: nat, k: nat)
    requires Pow2(s) * (TABLE_LEN * k) == 0x10_0000_0000
    ensures IndexOf(virt, s + 12) == PageOf(virt) / Pow2(s) % TABLE_LEN
  {
    AndLowMask(Shr(virt, s + 12));
    ShrIsDivision(virt, s + 12);
    Pow2Sum(12, s);
    assert Pow2(12) == 4096;
    DivTwice(virt, 4096, Pow2(s));
    DropHighPart(virt / PAGE_SIZE, Pow2(s), k);
  }

  lemma DivTwice(a: nat, d: nat, e: nat)
    requires d > 0 && e > 0
    ensures d * e > 0 && a / d / e == a / (d * e)
  {
    var b, s := a / d, a % d;
    var q, r := b / e, b % e;
    MulAtLeast(d, e - r);
    Distribute(d, e, q, r);
    DivModUnique(a, d * e, q, d * r + s);
  }

  lemma Distribute(d: int, e: int, q: int, r: int)
    ensures d * (e * q + r) == d * e * q + d * r && d * (e - r) == d * e - d * r
  {
  }

  lemma DropHighPart(a: nat, d: nat, k: nat)
    requires d * (TABLE_LEN * k) == 0x10_0000_0000
    ensures a % 0x10_0000_0000 / d % TABLE_LEN == a / d % TABLE_LEN
  {
    var q, p := a / 0x10_0000_0000, a % 0x10_0000_0000;
    var c := TABLE_LEN * k * q;
    assert d * c == d * (TABLE_LEN * k) * q;
    DivModUnique(a, d, p / d + c, p % d);
    assert c == TABLE_LEN * (k * q);
    DivModUnique(p / d + c, TABLE_LEN, p / d / TABLE_LEN + k * q, p / d % TABLE_LEN);
  }

  /** A page number is determined by its four indexes. */
  lemma PageOfIndexes(p: nat, q: nat)
    requires p < 0x10_0000_0000 && q < 0x10_0000_0000
    requires Top(p) == Top(q) && Third(p) == Third(q) && Second(p) == Second(q) && Last(p) == Last(q)
    ensures p == q
  {
    DecomposePage(p);
    DecomposePage(q);
  }

  lemma DecomposePage(p: nat)
    requires p < 0x10_0000_0000
    ensures p == 0x800_0000 * Top(p) + 0x4_0000 * Third(p) + 0x200 * Second(p) + Last(p)
  {
    var a, b := p / 512, p / 0x4_0000;
    assert b == a / 512 && p / 0x800_0000 == b / 512;
  }

  // ---------- tables and walks ----------

  /** The tables in memory, by the address the kernel reaches them at: the physical address of the
      frame plus the higher-half offset. */
  datatype Mem = Mem(offset: nat, tables: map<nat, seq<nat>>)

  function Entry(m: Mem, t: nat, i: nat): nat {
    if t in m.tables && i < |m.tables[t]| then m.tables[t][i] else 0
  }

  /** The table that entry i of table t points to, 0 if it is not present. */
  function Next(m: Mem, t: nat, i: nat): nat {
    if Present(Entry(m, t, i)) then GetAddr(Entry(m, t, i)) + m.offset else 0
  }

  /** Which table an entry leads to, by the bits of the entry. */
  lemma NextOfEntry(m: Mem, t: nat, i: nat, high: nat, frame: nat, low: nat)
    requires frame < 0x100_0000_0000 && low < PAGE_SIZE
    requires Entry(m, t, i) == high * PHYS_LIMIT + frame * PAGE_SIZE + low
    ensures Next(m, t, i) == if low % 2 == 1 then frame * PAGE_SIZE + m.offset else 0
  {
    EntryFields(high, frame, low);
  }

  /** The page table of page p under root r, 0 if a level is missing. */
  function PageTable(m: Mem, r: nat, p: nat): nat {
    Next(m, Next(m, Next(m, r, Top(p)), Third(p)), Second(p))
  }

  /** What a walk from root r finds for page p: its entry, 0 if there is no page table. */
  function Walk(m: Mem, r: nat, p: nat): nat {
    Entry(m, PageTable(m, r, p), Last(p))
  }

  /** The flat map a root stands for. */
  ghost function Flat(m: Mem, r: nat): map<nat, nat> {
    map p: nat | 0 <= p < 0x10_0000_0000 :: Walk(m, r, p)
  }

  function Store(m: Mem, t: nat, i: nat, e: nat): Mem
    requires t in m.tables && i < |m.tables[t]|
  {
    var entries: seq<nat> := m.tables[t][i := e];
    m.(tables := m.tables[t := entries])
  }

  /** A zero-filled table at t. */
  function Zeroed(m: Mem, t: nat): Mem {
    m.(tables := m.tables[t := seq(TABLE_LEN, _ => 0)])
  }

  // ---------- the tree ----------

  /** Where a table hangs: its level (4 for a root), the table that points to it unless that is a
      root, and the index there. Roots may share the tables below them, at the same index. */
  datatype Home = Home(level: nat, parent: nat, index: nat)
  datatype Homes = Homes(of: map<nat, Home>)

  ghost predicate LinkOk(m: Mem, h: Homes, t: nat, i: nat)
    requires t in h.of
  {
    var c := Next(m, t, i);
    h.of[t].level >= 2 && c != 0 ==>
      && c in m.tables && c in h.of && h.of[c].level == h.of[t].level - 1 && h.of[c].index == i
      && (h.of[t].level < 4 ==> h.of[c].parent == t)
  }

  ghost predicate TableOk(m: Mem, h: Homes, t: nat)
    requires t in m.tables
  {
    && t in h.of && |m.tables[t]| == TABLE_LEN && 1 <= h.of[t].level <= 4
    && forall i: nat {:trigger LinkOk(m, h, t, i)} :: i < TABLE_LEN ==> LinkOk(m, h, t, i)
  }

  ghost predicate MemOk(m: Mem, h: Homes) {
    && 0 < m.offset && m.offset + PHYS_LIMIT <= VIRT_LIMIT && 0 !in m.tables
    && forall t {:trigger TableOk(m, h, t)} :: t in m.tables ==> TableOk(m, h, t)
  }

  ghost predicate IsTable(m: Mem, h: Homes, t: nat, level: nat) {
    t in m.tables && t in h.of && h.of[t].level == level
  }

  /** The table one level down, if there is one, hangs where it should. */
  lemma NextIsTable(m: Mem, h: Homes, t: nat, i: nat, level: nat)
    requires MemOk(m, h) && IsTable(m, h, t, level) && level >= 2 && i < TABLE_LEN && Next(m, t, i) != 0
    ensures IsTable(m, h, Next(m, t, i), level - 1) && h.of[Next(m, t, i)].index == i
    ensures level < 4 ==> h.of[Next(m, t, i)].parent == t
  {
    assert TableOk(m, h, t) && LinkOk(m, h, t, i);
  }

  lemma NextOfNull(m: Mem, i: nat)
    requires 0 !in m.tables
    ensures Entry(m, 0, i) == 0 && Next(m, 0, i) == 0
  {
  }

  /** Table t is at the given level, at this index of table parent. */
  ghost predicate Hangs(m: Mem, h: Homes, t: nat, level: nat, index: nat, parent: nat) {
    IsTable(m, h, t, level) && h.of[t].index == index && h.of[t].parent == parent
  }

  /** The tables on the walk to a page, as far as they exist. */
  lemma WalkTables(m: Mem, h: Homes, r: nat, p: nat)
    requires MemOk(m, h) && IsTable(m, h, r, 4)
    ensures var a, b := Next(m, r, Top(p)), Next(m, Next(m, r, Top(p)), Third(p));
            && (a != 0 ==> IsTable(m, h, a, 3))
            && (b != 0 ==> a != 0 && Hangs(m, h, b, 2, Third(p), a))
            && (PageTable(m, r, p) != 0 ==> b != 0 && Hangs(m, h, PageTable(m, r, p), 1, Second(p), b))
    ensures Next(m, r, Top(p)) != 0 ==> h.of[Next(m, r, Top(p))].index == Top(p)
  {
    var a, b, c := Next(m, r, Top(p)), Next(m, Next(m, r, Top(p)), Third(p)), PageTable(m, r, p);
    NextOfNull(m, Third(p));
    NextOfNull(m, Second(p));
    if a != 0 {
      NextIsTable(m, h, r, Top(p), 4);
      if b != 0 {
        NextIsTable(m, h, a, Third(p), 3);
        if c != 0 { NextIsTable(m, h, b, Second(p), 2); }
      }
    }
  }

  /** Two walks end in the same entry only if they are for the same page and go through the same
      table below their roots. */
  lemma WalksMeet(m: Mem, h: Homes, r: nat, p: nat, s: nat, q: nat)
    requires MemOk(m, h) && IsTable(m, h, r, 4) && IsTable(m, h, s, 4)
    requires p < 0x10_0000_0000 && q < 0x10_0000_0000
    requires PageTable(m, r, p) == PageTable(m, s, q) != 0 && Last(p) == Last(q)
    ensures p == q && Next(m, r, Top(p)) == Next(m, s, Top(p))
  {
    WalkTables(m, h, r, p);
    WalkTables(m, h, s, q);
    PageOfIndexes(p, q);
  }

  // ---------- storing entries ----------

  /** What every operation keeps: tables stay where they are, and an entry that points to a table
      is never written again. */
  ghost predicate LinkKept(m: Mem, m': Mem, h: Homes, h': Homes, t: nat)
    requires t in h.of
  {
    && t in m'.tables && t in h'.of && h'.of[t] == h.of[t]
    && (h.of[t].level >= 2 ==>
          forall i: nat {:trigger Entry(m', t, i)} {:trigger Next(m', t, i)} ::
            i < TABLE_LEN && Next(m, t, i) != 0 ==> Entry(m', t, i) == Entry(m, t, i))
  }

  ghost predicate LinksKept(m: Mem, h: Homes, m': Mem, h': Homes) {
    && m'.offset == m.offset
    && forall t {:trigger LinkKept(m, m', h, h', t)} :: t in m.tables && t in h.of ==> LinkKept(m, m', h, h', t)
  }

  lemma LinksKeptTrans(m: Mem, h: Homes, m1: Mem, h1: Homes, m2: Mem, h2: Homes)
    requires LinksKept(m, h, m1, h1) && LinksKept(m1, h1, m2, h2)
    ensures LinksKept(m, h, m2, h2)
  {
    forall t | t in m.tables && t in h.of ensures LinkKept(m, m2, h, h2, t) {
      assert LinkKept(m, m1, h, h1, t) && LinkKept(m1, m2, h1, h2, t);
      forall i: nat | i < TABLE_LEN && h.of[t].level >= 2 && Next(m, t, i) != 0
        ensures Entry(m2, t, i) == Entry(m, t, i)
      {
        assert Entry(m1, t, i) == Entry(m, t, i);
        assert Next(m1, t, i) == Next(m, t, i);
      }
    }
  }

  /** A table that get_next_level may add at entry i of table t. */
  ghost predicate MayLink(m: Mem, h: Homes, t: nat, i: nat, f: nat) {
    && MemOk(m, h) && t in m.tables && t in h.of && h.of[t].level >= 2 && i < TABLE_LEN
    && Next(m, t, i) == 0 && IsFrame(f) && f + m.offset !in m.tables
  }

  function Link(m: Mem, t: nat, i: nat, f: nat): Mem
    requires t in m.tables && i < |m.tables[t]| && t != f + m.offset
  {
    Store(Zeroed(m, f + m.offset), t, i, TableEntry(f))
  }

  function LinkHome(h: Homes, t: nat, i: nat, c: nat): Homes
    requires t in h.of && h.of[t].level > 0
  {
    Homes(h.of[c := Home(h.of[t].level - 1, t, i)])
  }

  /** Table c has no present entry. */
  ghost predicate Empty(m: Mem, c: nat) {
    forall j: nat {:trigger Next(m, c, j)} {:trigger Entry(m, c, j)} :: Entry(m, c, j) == 0 && Next(m, c, j) == 0
  }

  /** All entries but entry i of table t and those of table c are the same. */
  ghost predicate SameElsewhere(m: Mem, m': Mem, t: nat, i: nat, c: nat) {
    forall u: nat, j: nat {:trigger Entry(m', u, j)} {:trigger Next(m', u, j)} ::
      (u, j) != (t, i) && u != c ==> Entry(m', u, j) == Entry(m, u, j) && Next(m', u, j) == Next(m, u, j)
  }

  lemma LinkEntries(m: Mem, h: Homes, t: nat, i: nat, f: nat)
    requires MayLink(m, h, t, i, f)
    ensures |m.tables[t]| == TABLE_LEN
    ensures var m', c := Link(m, t, i, f), f + m.offset;
            Next(m', t, i) == c && Empty(m', c) && SameElsewhere(m, m', t, i, c)
  {
    assert TableOk(m, h, t);
    AddrOfTableEntry(f);
  }

  lemma LinkKeepsMem(m: Mem, h: Homes, t: nat, i: nat, f: nat)
    requires MayLink(m, h, t, i, f)
    ensures |m.tables[t]| == TABLE_LEN
    ensures MemOk(Link(m, t, i, f), LinkHome(h, t, i, f + m.offset))
    ensures LinksKept(m, h, Link(m, t, i, f), LinkHome(h, t, i, f + m.offset))
  {
    LinkEntries(m, h, t, i, f);
    var m', h', c := Link(m, t, i, f), LinkHome(h, t, i, f + m.offset), f + m.offset;
    assert TableOk(m, h, t);
    forall u | u in m'.tables ensures TableOk(m', h', u) {
      if u != c { assert TableOk(m, h, u); }
      forall j: nat | j < TABLE_LEN ensures LinkOk(m', h', u, j) {
        if u != c { assert LinkOk(m, h, u, j); }
      }
    }
    forall u | u in m.tables && u in h.of ensures LinkKept(m, m', h, h', u) {
    }
  }

  /** Adding an empty table changes no translation. */
  lemma LinkKeepsWalk(m: Mem, h: Homes, t: nat, i: nat, f: nat, r: nat, p: nat)
    requires MayLink(m, h, t, i, f) && IsTable(m, h, r, 4)
    ensures |m.tables[t]| == TABLE_LEN
    ensures Walk(Link(m, t, i, f), r, p) == Walk(m, r, p)
  {
    LinkEntries(m, h, t, i, f);
    LinkKeepsMem(m, h, t, i, f);
    WalkTables(m, h, r, p);
    var m', c := Link(m, t, i, f), f + m.offset;
    var a, b, d := Next(m, r, Top(p)), Next(m, Next(m, r, Top(p)), Third(p)), PageTable(m, r, p);
    NextOfNull(m, Third(p));
    NextOfNull(m, Second(p));
    NextOfNull(m, Last(p));
    NextOfNull(m', Third(p));
    NextOfNull(m', Second(p));
    NextOfNull(m', Last(p));
    var a' := Next(m', r, Top(p));
    assert a' == a || (a == 0 && a' == c);
    var b' := Next(m', a', Third(p));
    assert b' == b || (b == 0 && b' == c);
    var d' := Next(m', b', Second(p));
    assert d' == d || (d == 0 && d' == c);
  }

  /** Storing in the page table of page p under root s. */
  lemma StoreKeepsMem(m: Mem, h: Homes, t: nat, i: nat, e: nat)
    requires MemOk(m, h) && IsTable(m, h, t, 1) && i < TABLE_LEN
    ensures |m.tables[t]| == TABLE_LEN
    ensures MemOk(Store(m, t, i, e), h) && LinksKept(m, h, Store(m, t, i, e), h)
  {
    assert TableOk(m, h, t);
    var m' := Store(m, t, i, e);
    forall u | u in m'.tables ensures TableOk(m', h, u) {
      assert TableOk(m, h, u);
      forall j: nat | j < TABLE_LEN ensures LinkOk(m', h, u, j) { assert LinkOk(m, h, u, j); }
    }
    forall u | u in m.tables && u in h.of ensures LinkKept(m, m', h, h, u) {
      if u != t { assert forall j: nat :: Next(m', u, j) == Next(m, u, j); }
    }
  }

  lemma StoreChangesWalk(m: Mem, h: Homes, s: nat, p: nat, e: nat, r: nat, q: nat)
    requires MemOk(m, h) && IsTable(m, h, s, 4) && IsTable(m, h, r, 4) && PageTable(m, s, p) != 0
    requires p < 0x10_0000_0000 && q < 0x10_0000_0000
    ensures var t := PageTable(m, s, p);
            && IsTable(m, h, t, 1) && |m.tables[t]| == TABLE_LEN
            && Walk(Store(m, t, Last(p), e), r, q)
               == if q == p && Next(m, r, Top(p)) == Next(m, s, Top(p)) then e else Walk(m, r, q)
    ensures var t := PageTable(m, s, p); Next(Store(m, t, Last(p), e), r, Top(p)) == Next(m, r, Top(p))
  {
    WalkTables(m, h, s, p);
    WalkTables(m, h, r, q);
    var t := PageTable(m, s, p);
    assert TableOk(m, h, t);
    var m' := Store(m, t, Last(p), e);
    assert forall u: nat, j: nat {:trigger Next(m', u, j)} :: u != t ==> Next(m', u, j) == Next(m, u, j);
    NextOfNull(m, Third(q));
    NextOfNull(m, Second(q));
    assert PageTable(m', r, q) == PageTable(m, r, q);
    if PageTable(m, r, q) == t && Last(q) == Last(p) {
      WalksMeet(m, h, r, q, s, p);
    }
  }
}
