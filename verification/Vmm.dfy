/** The virtual memory manager (sys/mm/vmm.c): a tree of tables built on demand that behaves as a
    flat map from page numbers to entries, under roots that share their kernel half. */
module Vmm {
  import opened Bits
  import opened PageTables

  // ---------- what an operation does to every root ----------

  ghost predicate FlatKept(m: Mem, m': Mem, r: nat) {
    Flat(m', r) == Flat(m, r)
  }

  /** No root translates any page differently. */
  ghost predicate SameFlat(m: Mem, h: Homes, m': Mem, h': Homes) {
    && LinksKept(m, h, m', h')
    && forall r {:trigger FlatKept(m, m', r)} :: IsTable(m, h, r, 4) ==> FlatKept(m, m', r)
  }

  /** Root r after entry e was stored for page p through root s: it has the new entry if it shares
      the table below s's entry for the page, and is as before otherwise. */
  ghost predicate RootStores(m: Mem, m': Mem, r: nat, s: nat, p: nat, e: nat) {
    Flat(m', r) == if Next(m', r, Top(p)) == Next(m', s, Top(p)) then Flat(m, r)[p := e] else Flat(m, r)
  }

  ghost predicate Stores(m: Mem, h: Homes, m': Mem, h': Homes, s: nat, p: nat, e: nat) {
    && LinksKept(m, h, m', h')
    && forall r {:trigger RootStores(m, m', r, s, p, e)} :: IsTable(m, h, r, 4) ==> RootStores(m, m', r, s, p, e)
  }

  lemma SameFlatSelf(m: Mem, h: Homes)
    requires MemOk(m, h)
    ensures SameFlat(m, h, m, h)
  {
  }

  lemma SameFlatTrans(m: Mem, h: Homes, m1: Mem, h1: Homes, m2: Mem, h2: Homes)
    requires SameFlat(m, h, m1, h1) && SameFlat(m1, h1, m2, h2)
    ensures SameFlat(m, h, m2, h2)
  {
    LinksKeptTrans(m, h, m1, h1, m2, h2);
    forall r | IsTable(m, h, r, 4) ensures FlatKept(m, m2, r) {
      assert LinkKept(m, m1, h, h1, r) && FlatKept(m, m1, r) && FlatKept(m1, m2, r);
    }
  }

  lemma StillTable(m: Mem, h: Homes, m': Mem, h': Homes, t: nat, level: nat)
    requires LinksKept(m, h, m', h') && IsTable(m, h, t, level)
    ensures IsTable(m', h', t, level)
  {
    assert LinkKept(m, m', h, h', t);
  }

  lemma StillNext(m: Mem, h: Homes, m': Mem, h': Homes, t: nat, i: nat, level: nat)
    requires LinksKept(m, h, m', h') && IsTable(m, h, t, level) && level >= 2 && i < TABLE_LEN && Next(m, t, i) != 0
    ensures IsTable(m', h', t, level) && Next(m', t, i) == Next(m, t, i)
  {
    assert LinkKept(m, m', h, h', t);
  }

  lemma SameFlatThenStores(m: Mem, h: Homes, m1: Mem, h1: Homes, m2: Mem, h2: Homes, s: nat, p: nat, e: nat)
    requires SameFlat(m, h, m1, h1) && Stores(m1, h1, m2, h2, s, p, e)
    ensures Stores(m, h, m2, h2, s, p, e)
  {
    LinksKeptTrans(m, h, m1, h1, m2, h2);
    forall r | IsTable(m, h, r, 4) ensures RootStores(m, m2, r, s, p, e) {
      assert LinkKept(m, m1, h, h1, r) && FlatKept(m, m1, r) && RootStores(m1, m2, r, s, p, e);
    }
  }

  lemma LinkIsSameFlat(m: Mem, h: Homes, t: nat, i: nat, f: nat)
    requires MayLink(m, h, t, i, f)
    ensures |m.tables[t]| == TABLE_LEN
    ensures SameFlat(m, h, Link(m, t, i, f), LinkHome(h, t, i, f + m.offset))
  {
    LinkKeepsMem(m, h, t, i, f);
    forall r | IsTable(m, h, r, 4) ensures FlatKept(m, Link(m, t, i, f), r) {
      forall p: nat | p < 0x10_0000_0000 ensures Walk(Link(m, t, i, f), r, p) == Walk(m, r, p) {
        LinkKeepsWalk(m, h, t, i, f, r, p);
      }
    }
  }

  lemma StoreIsStores(m: Mem, h: Homes, s: nat, p: nat, e: nat)
    requires MemOk(m, h) && IsTable(m, h, s, 4) && PageTable(m, s, p) != 0 && p < 0x10_0000_0000
    ensures var t := PageTable(m, s, p);
            && IsTable(m, h, t, 1) && |m.tables[t]| == TABLE_LEN
            && MemOk(Store(m, t, Last(p), e), h) && Stores(m, h, Store(m, t, Last(p), e), h, s, p, e)
  {
    WalkTables(m, h, s, p);
    var t := PageTable(m, s, p);
    StoreKeepsMem(m, h, t, Last(p), e);
    var m' := Store(m, t, Last(p), e);
    StoreChangesWalk(m, h, s, p, e, s, p);
    forall r | IsTable(m, h, r, 4) ensures RootStores(m, m', r, s, p, e) {
      StoreInFlat(m, h, s, p, e, r);
    }
  }

  lemma StoreInFlat(m: Mem, h: Homes, s: nat, p: nat, e: nat, r: nat)
    requires MemOk(m, h) && IsTable(m, h, s, 4) && IsTable(m, h, r, 4) && PageTable(m, s, p) != 0 && p < 0x10_0000_0000
    ensures var t := PageTable(m, s, p);
            && t in m.tables && |m.tables[t]| == TABLE_LEN
            && RootStores(m, Store(m, t, Last(p), e), r, s, p, e)
  {
    var t := PageTable(m, s, p);
    StoreChangesWalk(m, h, s, p, e, s, p);
    StoreChangesWalk(m, h, s, p, e, r, p);
    var m' := Store(m, t, Last(p), e);
    forall q: nat | q < 0x10_0000_0000
      ensures Walk(m', r, q) == if q == p && Next(m', r, Top(p)) == Next(m', s, Top(p)) then e else Walk(m, r, q)
    {
      StoreChangesWalk(m, h, s, p, e, r, q);
    }
    FlatUpdate(m, m', r, s, p, e);
  }

  lemma FlatUpdate(m: Mem, m': Mem, r: nat, s: nat, p: nat, e: nat)
    requires p < 0x10_0000_0000
    requires forall q: nat {:trigger Walk(m', r, q)} :: q < 0x10_0000_0000 ==>
               Walk(m', r, q) == if q == p && Next(m', r, Top(p)) == Next(m', s, Top(p)) then e else Walk(m, r, q)
    ensures RootStores(m, m', r, s, p, e)
  {
  }

  /** A page without a page table is unmapped already, through every root that shares. */
  lemma NothingToUnmap(m: Mem, h: Homes, s: nat, p: nat)
    requires MemOk(m, h) && IsTable(m, h, s, 4) && PageTable(m, s, p) == 0 && p < 0x10_0000_0000
    ensures Stores(m, h, m, h, s, p, 0)
  {
    SameFlatSelf(m, h);
    forall r | IsTable(m, h, r, 4) ensures RootStores(m, m, r, s, p, 0) {
      if Next(m, r, Top(p)) == Next(m, s, Top(p)) {
        NextOfNull(m, Last(p));
        assert Walk(m, r, p) == 0;
        assert Flat(m, r)[p := 0] == Flat(m, r);
      }
    }
  }

  // ---------- new roots ----------

  /** The entries of a root that vmm_make_pml4 made: the upper half is the old root's. */
  ghost predicate KernelHalf(m: Mem, root: nat, row: seq<nat>) {
    && |row| == TABLE_LEN
    && forall i: nat :: i < TABLE_LEN ==> row[i] == if i < 256 then 0 else Entry(m, root, i)
  }

  function WithRoot(m: Mem, c: nat, row: seq<nat>): Mem {
    m.(tables := m.tables[c := row])
  }

  function NewHome(h: Homes, c: nat): Homes {
    Homes(h.of[c := Home(4, 0, 0)])
  }

  /** Roots r and s have the same entries in their upper halves, and translate alike there. */
  ghost predicate SharesKernelHalf(m: Mem, r: nat, s: nat) {
    && (forall i: nat :: 256 <= i < TABLE_LEN ==> Entry(m, r, i) == Entry(m, s, i))
    && (forall p: nat :: p < 0x10_0000_0000 && Top(p) >= 256 ==> Walk(m, r, p) == Walk(m, s, p))
  }

  /** No page of the lower half is mapped under root r. */
  ghost predicate LowerHalfClear(m: Mem, r: nat) {
    forall p: nat {:trigger Walk(m, r, p)} :: Top(p) < 256 ==> Walk(m, r, p) == 0
  }

  /** The contents of a frame for a new root: what vmm_make_pml4 does not write has to be clear. */
  predicate FrameForRoot(contents: seq<nat>) {
    |contents| == TABLE_LEN && forall i: nat :: 64 <= i < 256 ==> contents[i] == 0
  }

  /** All tables but c have the same entries. */
  ghost predicate OthersSame(m: Mem, m': Mem, c: nat) {
    forall t: nat, i: nat {:trigger Next(m', t, i)} {:trigger Entry(m', t, i)} ::
      t != c ==> Next(m', t, i) == Next(m, t, i) && Entry(m', t, i) == Entry(m, t, i)
  }

  /** Table c points where root did in the upper half, and nowhere in the lower one. */
  ghost predicate UpperHalfOf(m: Mem, root: nat, m': Mem, c: nat) {
    forall i: nat {:trigger Next(m', c, i)} ::
      i < TABLE_LEN ==> Next(m', c, i) == if i < 256 then 0 else Next(m, root, i)
  }

  lemma NewRootEntries(m: Mem, h: Homes, root: nat, c: nat, row: seq<nat>)
    requires MemOk(m, h) && IsTable(m, h, root, 4) && c !in m.tables && c != 0 && KernelHalf(m, root, row)
    ensures OthersSame(m, WithRoot(m, c, row), c) && UpperHalfOf(m, root, WithRoot(m, c, row), c)
  {
  }

  lemma NewRootKeepsMem(m: Mem, h: Homes, root: nat, c: nat, row: seq<nat>)
    requires MemOk(m, h) && IsTable(m, h, root, 4) && c !in m.tables && c != 0 && KernelHalf(m, root, row)
    ensures MemOk(WithRoot(m, c, row), NewHome(h, c)) && LinksKept(m, h, WithRoot(m, c, row), NewHome(h, c))
  {
    NewRootEntries(m, h, root, c, row);
    var m', h' := WithRoot(m, c, row), NewHome(h, c);
    forall t | t in m'.tables ensures TableOk(m', h', t) {
      var t0 := if t == c then root else t;
      assert TableOk(m, h, t0);
      forall i: nat | i < TABLE_LEN ensures LinkOk(m', h', t, i) { assert LinkOk(m, h, t0, i); }
    }
    forall t | t in m.tables && t in h.of ensures LinkKept(m, m', h, h', t) {}
  }

  /** A walk from the new root, or from any other. */
  lemma NewRootWalk(m: Mem, h: Homes, root: nat, c: nat, row: seq<nat>, r: nat, p: nat)
    requires MemOk(m, h) && IsTable(m, h, root, 4) && c !in m.tables && c != 0 && KernelHalf(m, root, row)
    requires if r == c then Top(p) >= 256 else IsTable(m, h, r, 4)
    ensures Walk(WithRoot(m, c, row), r, p) == Walk(m, if r == c then root else r, p)
  {
    NewRootEntries(m, h, root, c, row);
    WalkTables(m, h, if r == c then root else r, p);
    NextOfNull(m, Third(p));
    NextOfNull(m, Second(p));
  }

  /** The lower half of a new root has no page. */
  lemma NewRootLower(m: Mem, h: Homes, root: nat, c: nat, row: seq<nat>)
    requires MemOk(m, h) && IsTable(m, h, root, 4) && c !in m.tables && c != 0 && KernelHalf(m, root, row)
    ensures LowerHalfClear(WithRoot(m, c, row), c)
  {
    NewRootEntries(m, h, root, c, row);
    var m' := WithRoot(m, c, row);
    forall p: nat | Top(p) < 256 ensures Walk(m', c, p) == 0 {
      NextOfNull(m', Third(p));
      NextOfNull(m', Second(p));
      NextOfNull(m', Last(p));
    }
  }

  /** A new root translates every address of the upper half as the old root does, and no other
      root translates any page differently. */
  lemma NewRoot(m: Mem, h: Homes, root: nat, c: nat, row: seq<nat>)
    requires MemOk(m, h) && IsTable(m, h, root, 4) && c !in m.tables && c != 0 && KernelHalf(m, root, row)
    ensures SameFlat(m, h, WithRoot(m, c, row), NewHome(h, c))
    ensures SharesKernelHalf(WithRoot(m, c, row), c, root)
  {
    NewRootKeepsMem(m, h, root, c, row);
    NewRootEntries(m, h, root, c, row);
    var m' := WithRoot(m, c, row);
    forall r | IsTable(m, h, r, 4) ensures FlatKept(m, m', r) {
      forall p: nat | p < 0x10_0000_0000 ensures Walk(m', r, p) == Walk(m, r, p) {
        NewRootWalk(m, h, root, c, row, r, p);
      }
    }
    forall p: nat | p < 0x10_0000_0000 && Top(p) >= 256 ensures Walk(m', c, p) == Walk(m', root, p) {
      NewRootWalk(m, h, root, c, row, c, p);
      NewRootWalk(m, h, root, c, row, root, p);
    }
  }

  // ---------- the manager ----------

  /** Frames that pmm_alloc hands out: page-aligned, not null, distinct and in no use as a table. */
  ghost predicate FramesOk(m: Mem, frames: seq<nat>) {
    && (forall k :: 0 <= k < |frames| ==> IsFrame(frames[k]) && frames[k] + m.offset !in m.tables)
    && (forall k, l :: 0 <= k < l < |frames| ==> frames[k] != frames[l])
  }

  class Manager {
    var mem: Mem
    var frames: seq<nat>
    var oldPml4: nat
    ghost var home: Homes

    ghost predicate Valid()
      reads this
    {
      MemOk(mem, home) && FramesOk(mem, frames) && (oldPml4 != 0 ==> IsTable(mem, home, oldPml4, 4))
    }

    ghost function Now(): State
      reads this
    {
      State(mem, home, oldPml4)
    }

    constructor (mem: Mem, frames: seq<nat>, ghost home: Homes)
      requires MemOk(mem, home) && FramesOk(mem, frames)
      ensures Valid() && this.mem == mem && this.frames == frames && this.home == home
    {
      this.mem, this.frames, this.oldPml4 := mem, frames, 0;
      this.home := home;
    }

    /** pmm_alloc(1), as assumed: the next frame, zero-filled */
    method AllocFrame() returns (f: nat)
      requires |frames| > 0
      modifies this`mem, this`frames
      ensures f == old(frames[0]) && frames == old(frames[1..])
      ensures mem == Zeroed(old(mem), f + old(mem.offset))
    {
      f := frames[0];
      frames := frames[1..];
      mem := Zeroed(mem, f + mem.offset);
    }

    /** get_next_level */
    method GetNextLevel(top: nat, index: nat, alloc: bool) returns (next: nat)
      requires Valid() && (exists level :: level >= 2 && IsTable(mem, home, top, level)) && index < TABLE_LEN
      requires alloc ==> |frames| >= 1
      modifies this`mem, this`frames, this`home
      ensures Valid() && SameFlat(old(mem), old(home), mem, home) && |frames| >= old(|frames|) - 1
      ensures next == Next(mem, top, index) && (alloc ==> next != 0)
      ensures !alloc ==> mem == old(mem) && home == old(home) && frames == old(frames)
    {
      assert TableOk(mem, home, top);
      SameFlatSelf(mem, home);
      if Present(mem.tables[top][index]) {
        var phys := GetAddr(mem.tables[top][index]);
        return phys + mem.offset;
      }
      if !alloc {
        return 0;
      }
      next := AddLevel(top, index);
    }

    /** get_next_level, lines 34-39: a new table */
    method AddLevel(top: nat, index: nat) returns (next: nat)
      requires Valid() && |frames| >= 1 && MayLink(mem, home, top, index, frames[0])
      modifies this`mem, this`frames, this`home
      ensures Valid() && SameFlat(old(mem), old(home), mem, home) && |frames| == old(|frames|) - 1
      ensures next == Next(mem, top, index) && next != 0
    {
      var nextLevel := frames[0];
      LinkIsSameFlat(mem, home, top, index, nextLevel);
      LinkKeepsMem(mem, home, top, index, nextLevel);
      LinkEntries(mem, home, top, index, nextLevel);
      nextLevel := AllocFrame();
      mem := Store(mem, top, index, TableEntry(nextLevel));
      home := LinkHome(home, top, index, nextLevel + mem.offset);
      next := nextLevel + mem.offset;
    }

    /** get_page_table */
    method GetPageTable(pml4: nat, virt: nat, alloc: bool) returns (pt: nat)
      requires Valid() && IsTable(mem, home, pml4, 4) && (alloc ==> |frames| >= 3)
      modifies this`mem, this`frames, this`home
      ensures Valid() && SameFlat(old(mem), old(home), mem, home) && |frames| >= old(|frames|) - 3
      ensures pt == PageTable(mem, pml4, PageOf(virt)) && (alloc ==> pt != 0)
      ensures !alloc ==> mem == old(mem) && home == old(home) && frames == old(frames)
    {
      IndexesOfPage(virt);
      ghost var m0, h0, p := mem, home, PageOf(virt);
      NextOfNull(mem, Third(p));
      NextOfNull(mem, Second(p));
      var pdpt := GetNextLevel(pml4, IndexOf(virt, 39), alloc);
      if pdpt == 0 {
        return 0;
      }
      ghost var m1, h1 := mem, home;
      StillTable(m0, h0, m1, h1, pml4, 4);
      NextIsTable(m1, h1, pml4, Top(p), 4);
      var pd := GetNextLevel(pdpt, IndexOf(virt, 30), alloc);
      SameFlatTrans(m0, h0, m1, h1, mem, home);
      StillNext(m1, h1, mem, home, pml4, Top(p), 4);
      if pd == 0 {
        return 0;
      }
      ghost var m2, h2 := mem, home;
      StillTable(m1, h1, m2, h2, pdpt, 3);
      NextIsTable(m2, h2, pdpt, Third(p), 3);
      pt := GetNextLevel(pd, IndexOf(virt, 21), alloc);
      SameFlatTrans(m0, h0, m2, h2, mem, home);
      StillNext(m2, h2, mem, home, pml4, Top(p), 4);
      StillNext(m2, h2, mem, home, pdpt, Third(p), 3);
    }

    /** vmm_map_page: the page translates to the new entry through pml4 and every root that shares
        the table pml4's entry points to; nothing else changes, even if three tables are added. */
    method MapPage(pml4: nat, virt: nat, phys: nat, flags: nat)
      requires Valid() && IsTable(mem, home, pml4, 4) && |frames| >= 3
      modifies this`mem, this`frames, this`home
      ensures Valid() && Stores(old(mem), old(home), mem, home, pml4, PageOf(virt), Or(phys, flags))
      ensures Next(mem, pml4, Top(PageOf(virt))) != 0 && |frames| >= old(|frames|) - 3
    {
      ghost var m0, h0, p, e := mem, home, PageOf(virt), Or(phys, flags);
      IndexesOfPage(virt);
      var pageTable := GetPageTable(pml4, virt, true);
      StillTable(m0, h0, mem, home, pml4, 4);
      StoreIsStores(mem, home, pml4, p, e);
      SameFlatThenStores(m0, h0, mem, home, Store(mem, pageTable, Last(p), e), home, pml4, p, e);
      HasTop(mem, pml4, p);
      StillNext(mem, home, Store(mem, pageTable, Last(p), e), home, pml4, Top(p), 4);
      mem := Store(mem, pageTable, IndexOf(virt, 12), Or(phys, flags));
    }

    /** vmm_unmap_page */
    method UnmapPage(pml4: nat, virt: nat)
      requires Valid() && IsTable(mem, home, pml4, 4)
      modifies this`mem, this`frames, this`home
      ensures Valid() && Stores(old(mem), old(home), mem, home, pml4, PageOf(virt), 0)
      ensures frames == old(frames)
    {
      ghost var p := PageOf(virt);
      IndexesOfPage(virt);
      var pageTable := GetPageTable(pml4, virt, false);
      if pageTable == 0 {
        NothingToUnmap(mem, home, pml4, p);
        return;
      }
      StoreIsStores(mem, home, pml4, p, 0);
      mem := Store(mem, pageTable, IndexOf(virt, 12), 0);
    }

    /** vmm_get_phys, with the root that CR3 holds; it may add tables but no translation */
    method GetPhys(cr3: nat, virt: nat) returns (phys: nat)
      requires Valid() && IsTable(mem, home, cr3, 4) && |frames| >= 3 && virt < VIRT_LIMIT
      modifies this`mem, this`frames, this`home
      ensures Valid() && SameFlat(old(mem), old(home), mem, home) && |frames| >= old(|frames|) - 3
      ensures phys == GetAddr(Flat(old(mem), cr3)[PageOf(virt)])
    {
      ghost var m0, h0, p := mem, home, PageOf(virt);
      AlignDownKeepsPage(virt);
      var page := AlignDown(virt);
      IndexesOfPage(page);
      var pageTable := GetPageTable(cr3, page, true);
      WalkReads(m0, h0, mem, home, cr3, p);
      var pte := mem.tables[pageTable][IndexOf(page, 12)];
      phys := GetAddr(pte);
    }

    /** vmm_make_pml4, with the root that CR3 holds: the root of the first call is the model for all. The
        frame comes with any contents but for the entries that the code neither clears nor copies. */
    method MakePml4(cr3: nat, contents: seq<nat>) returns (newPml4: nat)
      requires Valid() && IsTable(mem, home, cr3, 4) && |frames| >= 1 && FrameForRoot(contents)
      modifies this
      ensures Valid() && SameFlat(old(mem), old(home), mem, home) && |frames| == old(|frames|) - 1
      ensures oldPml4 == (if old(oldPml4) == 0 then cr3 else old(oldPml4))
      ensures newPml4 !in old(mem.tables) && IsTable(mem, home, newPml4, 4) && SharesKernelHalf(mem, newPml4, oldPml4)
      ensures LowerHalfClear(mem, newPml4)
    {
      if oldPml4 == 0 {
        oldPml4 := cr3;
      }
      ghost var m0, h0, root := mem, home, oldPml4;
      assert TableOk(m0, h0, root);
      newPml4 := frames[0];
      frames := frames[1..];
      newPml4 := newPml4 + mem.offset;
      mem := WithRoot(mem, newPml4, contents);
      ghost var row := contents;
      var i := 0;
      while i < 64
        invariant 0 <= i <= 64 && |row| == TABLE_LEN && mem == WithRoot(m0, newPml4, row)
        invariant oldPml4 == root && home == h0 && frames == old(frames[1..])
        invariant forall j: nat :: j < i || 64 <= j < 256 ==> row[j] == 0
      {
        row := row[i := 0];
        mem := Store(mem, newPml4, i, 0);
        i := i + 1;
      }
      i := 256;
      while i < TABLE_LEN
        invariant 256 <= i <= TABLE_LEN && |row| == TABLE_LEN && mem == WithRoot(m0, newPml4, row)
        invariant oldPml4 == root && home == h0 && frames == old(frames[1..])
        invariant forall j: nat :: j < i ==> row[j] == if j < 256 then 0 else Entry(m0, root, j)
      {
        var e := mem.tables[oldPml4][i];
        row := row[i := e];
        mem := Store(mem, newPml4, i, e);
        i := i + 1;
      }
      NewRoot(m0, h0, root, newPml4, row);
      NewRootKeepsMem(m0, h0, root, newPml4, row);
      NewRootLower(m0, h0, root, newPml4, row);
      home := NewHome(home, newPml4);
    }
  }

  lemma WalkReads(m: Mem, h: Homes, m': Mem, h': Homes, r: nat, p: nat)
    requires SameFlat(m, h, m', h') && IsTable(m, h, r, 4) && MemOk(m', h')
    requires PageTable(m', r, p) != 0 && p < 0x10_0000_0000
    ensures var t := PageTable(m', r, p);
            && t in m'.tables && |m'.tables[t]| == TABLE_LEN
            && m'.tables[t][Last(p)] == Flat(m, r)[p]
  {
    StillTable(m, h, m', h', r, 4);
    WalkTables(m', h', r, p);
    assert TableOk(m', h', PageTable(m', r, p)) && FlatKept(m, m', r);
    assert Flat(m', r)[p] == Walk(m', r, p);
  }

  /** An operation of the manager makes a step of a run. */
  method Perform(v: Manager, op: Op) returns (answer: nat)
    requires v.Valid() && IsTable(v.mem, v.home, op.root, 4) && |v.frames| >= 3
    requires (op.Lookup? ==> op.virt < VIRT_LIMIT) && (op.MakeRoot? ==> FrameForRoot(op.contents))
    modifies v
    ensures v.Valid() && |v.frames| >= old(|v.frames|) - 3
    ensures Step(old(v.Now()), Event(op, answer), v.Now())
  {
    answer := 0;
    match op {
      case Map(root, virt, phys, flags) => v.MapPage(root, virt, phys, flags);
      case Unmap(root, virt) => v.UnmapPage(root, virt);
      case Lookup(root, virt) => answer := v.GetPhys(root, virt);
      case MakeRoot(root, contents) => answer := v.MakePml4(root, contents);
    }
  }

  lemma HasTop(m: Mem, r: nat, p: nat)
    requires 0 !in m.tables && PageTable(m, r, p) != 0
    ensures Next(m, r, Top(p)) != 0
  {
    NextOfNull(m, Third(p));
    NextOfNull(m, Second(p));
  }

  /** ALIGN_DOWN(address, 0x1000) */
  function AlignDown(address: nat): nat {
    And(address, VIRT_LIMIT - PAGE_SIZE)
  }

  lemma AlignDownKeepsPage(virt: nat)
    requires virt < VIRT_LIMIT
    ensures PageOf(AlignDown(virt)) == PageOf(virt)
  {
    Pow2Of64();
    assert Pow2(64) == 2 * Pow2(63);
    AndClearsLowBits(virt, 64, 12);
    LowBitsIsRemainder(virt, 12);
    SameQuotient(virt);
  }

  lemma SameQuotient(virt: nat)
    ensures (virt - virt % PAGE_SIZE) / PAGE_SIZE == virt / PAGE_SIZE
  {
  }

  /** Looking up a page just mapped gives its frame, provided that the flags have no address bit
      that the frame does not have. */
  lemma MappedFrame(m: Mem, h: Homes, m': Mem, h': Homes, root: nat, virt: nat, phys: nat, flags: nat)
    requires IsTable(m, h, root, 4) && Stores(m, h, m', h', root, PageOf(virt), Or(phys, flags))
    requires phys % PAGE_SIZE == 0 && phys < PHYS_LIMIT
    ensures GetAddr(Flat(m', root)[PageOf(virt)]) == phys <==> Or(phys, GetAddr(flags)) == phys
    ensures Present(Flat(m', root)[PageOf(virt)]) <==> Present(flags)
  {
    assert RootStores(m, m', root, root, PageOf(virt), Or(phys, flags));
    EntryOfFrame(phys, flags);
  }

  /** What a walk is, section 4.5.4 of the Intel SDM: from the root, nine bits of the address at a time
      choose an entry, from bit 39 down. */
  lemma WalkOfAddress(m: Mem, r: nat, high: nat, a: nat, b: nat, c: nat, d: nat, o: nat)
    requires a < TABLE_LEN && b < TABLE_LEN && c < TABLE_LEN && d < TABLE_LEN && o < PAGE_SIZE
    ensures var virt := high * 0x1_0000_0000_0000 + a * 0x80_0000_0000 + b * 0x4000_0000 + c * 0x20_0000
                        + d * 0x1000 + o;
            Flat(m, r)[PageOf(virt)] == Entry(m, Next(m, Next(m, Next(m, r, a), b), c), d)
  {
    IndexesOfAddress(high, a, b, c, d, o);
  }

  /** Byte o of page p. */
  function ByteOfPage(p: nat, o: nat): nat {
    p * PAGE_SIZE + o
  }

  predicate IsByteOfPage(p: nat, o: nat) {
    p < 0x10_0000_0000 && o < PAGE_SIZE
  }

  lemma PageOfByte(p: nat, o: nat)
    requires IsByteOfPage(p, o)
    ensures PageOf(ByteOfPage(p, o)) == p && ByteOfPage(p, o) < VIRT_LIMIT
  {
    PageOfAddress(0, p, o);
  }

  /** What is stored for a page is what its lookups find, and no other's. */
  lemma MappedPage(m: Mem, h: Homes, m': Mem, h': Homes, root: nat, phys: nat, flags: nat, p: nat, q: nat)
    requires p < 0x10_0000_0000 && q < 0x10_0000_0000
    requires IsTable(m, h, root, 4) && Stores(m, h, m', h', root, p, Or(phys, flags))
    requires phys % PAGE_SIZE == 0 && phys < PHYS_LIMIT && GetAddr(flags) == 0
    ensures GetAddr(Flat(m', root)[q]) == if p == q then phys else GetAddr(Flat(m, root)[q])
  {
    var e := Or(phys, flags);
    assert RootStores(m, m', root, root, p, e);
    assert Flat(m', root)[q] == if p == q then e else Flat(m, root)[q];
    assert GetAddr(e) == phys by { EntryOfFrame(phys, flags); }
  }

  /** vmm_map_page, then vmm_get_phys: all 4096 addresses of the page have the frame, and each address of
      another page has what it had. */
  method MapThenLook(v: Manager, root: nat, phys: nat, flags: nat, p: nat, o: nat, q: nat, o': nat)
    returns (answer: nat)
    requires IsByteOfPage(p, o) && IsByteOfPage(q, o')
    requires phys % PAGE_SIZE == 0 && phys < PHYS_LIMIT && GetAddr(flags) == 0
    requires v.Valid() && IsTable(v.mem, v.home, root, 4) && |v.frames| >= 6
    modifies v
    ensures v.Valid() && answer == if p == q then phys else GetAddr(Flat(old(v.mem), root)[q])
  {
    ghost var m, h := v.mem, v.home;
    PageOfByte(p, o);
    PageOfByte(q, o');
    v.MapPage(root, ByteOfPage(p, o), phys, flags);
    StillTable(m, h, v.mem, v.home, root, 4);
    MappedPage(m, h, v.mem, v.home, root, phys, flags, p, q);
    answer := v.GetPhys(root, ByteOfPage(q, o'));
  }

  // ---------- whole runs ----------

  /** Memory, and the root that vmm_make_pml4 copies from, 0 before its first call. */
  datatype State = State(mem: Mem, home: Homes, oldPml4: nat)

  datatype Op =
    | Map(root: nat, virt: nat, phys: nat, flags: nat)
    | Unmap(root: nat, virt: nat)
    | Lookup(root: nat, virt: nat)
    | MakeRoot(root: nat, contents: seq<nat>)

  /** An operation and its answer, 0 for those that have none. */
  datatype Event = Event(op: Op, answer: nat)

  /** The operation stores an entry for a page. */
  predicate IsStore(op: Op) {
    op.Map? || op.Unmap?
  }

  function StoredPage(op: Op): nat
    requires IsStore(op)
  {
    PageOf(op.virt)
  }

  function StoredEntry(op: Op): nat
    requires IsStore(op)
  {
    if op.Map? then Or(op.phys, op.flags) else 0
  }

  /** What the contract of each operation of the manager says of the tables and of the answer. */
  ghost predicate Step(s: State, e: Event, s': State) {
    match e.op
    case MakeRoot(root, _) =>
      && SameFlat(s.mem, s.home, s'.mem, s'.home)
      && s'.oldPml4 == (if s.oldPml4 == 0 then root else s.oldPml4)
      && IsTable(s'.mem, s'.home, s'.oldPml4, 4)
      && e.answer !in s.mem.tables && IsTable(s'.mem, s'.home, e.answer, 4)
      && SharesKernelHalf(s'.mem, e.answer, s'.oldPml4)
      && LowerHalfClear(s'.mem, e.answer)
    case Lookup(root, virt) =>
      && SameFlat(s.mem, s.home, s'.mem, s'.home) && s'.oldPml4 == s.oldPml4
      && e.answer == GetAddr(Flat(s.mem, root)[PageOf(virt)])
    case _ =>
      && Stores(s.mem, s.home, s'.mem, s'.home, e.op.root, StoredPage(e.op), StoredEntry(e.op))
      && s'.oldPml4 == s.oldPml4
  }

  ghost predicate Run(states: seq<State>, events: seq<Event>) {
    && |states| == |events| + 1
    && forall k {:trigger events[k]} :: 0 <= k < |events| ==> Step(states[k], events[k], states[k + 1])
  }

  lemma {:induction false} RunKeepsLinks(states: seq<State>, events: seq<Event>, i: nat, k: nat)
    requires Run(states, events) && i <= k <= |events|
    ensures LinksKept(states[i].mem, states[i].home, states[k].mem, states[k].home)
  {
    if i < k {
      RunKeepsLinks(states, events, i, k - 1);
      var s, b, c := states[i], states[k - 1], states[k];
      assert Step(b, events[k - 1], c);
      LinksKeptTrans(s.mem, s.home, b.mem, b.home, c.mem, c.home);
    }
  }

  /** Roots r and s are there in state i, with a present entry for page p each. */
  ghost predicate BothPresent(states: seq<State>, i: nat, r: nat, s: nat, p: nat)
    requires i < |states|
  {
    var m, h := states[i].mem, states[i].home;
    IsTable(m, h, r, 4) && IsTable(m, h, s, 4) && Next(m, r, Top(p)) != 0 && Next(m, s, Top(p)) != 0
  }

  /** Present top-level entries never change, so that two of them are equal ever after or never. */
  lemma SharingIsFixed(states: seq<State>, events: seq<Event>, i: nat, k: nat, r: nat, s: nat, p: nat)
    requires Run(states, events) && i <= k <= |events| && BothPresent(states, i, r, s, p)
    ensures Next(states[k].mem, r, Top(p)) == Next(states[i].mem, r, Top(p))
    ensures Next(states[k].mem, s, Top(p)) == Next(states[i].mem, s, Top(p))
  {
    RunKeepsLinks(states, events, i, k);
    var m, h, m', h' := states[i].mem, states[i].home, states[k].mem, states[k].home;
    StillNext(m, h, m', h', r, Top(p), 4);
    StillNext(m, h, m', h', s, Top(p), 4);
  }

  /** Two roots with the same present top-level entry translate its pages alike ever after,
      whatever is mapped or unmapped through either of them or through any other root. */
  lemma SharedStaysShared(states: seq<State>, events: seq<Event>, i: nat, k: nat, r: nat, s: nat, p: nat)
    requires Run(states, events) && i <= k <= |events| && BothPresent(states, i, r, s, p)
    requires Next(states[i].mem, r, Top(p)) == Next(states[i].mem, s, Top(p))
    ensures Walk(states[k].mem, r, p) == Walk(states[k].mem, s, p)
  {
    SharingIsFixed(states, events, i, k, r, s, p);
  }

  /** A root made in the course of a run shares the kernel half with its model from then on: each
      upper-half page whose top-level entry was present when the root was made. */
  lemma MadeRootFollows(states: seq<State>, events: seq<Event>, j: nat, k: nat, p: nat)
    requires Run(states, events) && j < k <= |events| && events[j].op.MakeRoot?
    requires 256 <= Top(p) && Next(states[j + 1].mem, states[j + 1].oldPml4, Top(p)) != 0
    ensures Walk(states[k].mem, events[j].answer, p) == Walk(states[k].mem, states[j + 1].oldPml4, p)
  {
    assert Step(states[j], events[j], states[j + 1]);
    var m, r, s := states[j + 1].mem, events[j].answer, states[j + 1].oldPml4;
    assert Entry(m, r, Top(p)) == Entry(m, s, Top(p));
    SharedStaysShared(states, events, j + 1, k, r, s, p);
  }

  /** The event stores an entry that root r sees: in the state after it, r and the root it went
      through point to the same table for the page. */
  ghost predicate SeenBy(e: Event, s': State, r: nat) {
    IsStore(e.op) && Next(s'.mem, r, Top(StoredPage(e.op))) == Next(s'.mem, e.op.root, Top(StoredPage(e.op)))
  }

  /** The plain map that root r stands for in state i, updated by what r sees up to state k. */
  ghost function Updated(states: seq<State>, events: seq<Event>, r: nat, i: nat, k: nat): map<nat, nat>
    requires |states| == |events| + 1 && i <= k <= |events|
    decreases k
  {
    if i == k then Flat(states[i].mem, r) else
      var before, e := Updated(states, events, r, i, k - 1), events[k - 1];
      if SeenBy(e, states[k], r) then before[StoredPage(e.op) := StoredEntry(e.op)] else before
  }

  /** Under any run of operations through any roots, old ones and ones made on the way, a root is the
      flat map updated by exactly the stores it sees. */
  lemma {:induction false} RunIsFlatMap(states: seq<State>, events: seq<Event>, r: nat, i: nat, k: nat)
    requires Run(states, events) && i <= k <= |events| && IsTable(states[i].mem, states[i].home, r, 4)
    ensures Flat(states[k].mem, r) == Updated(states, events, r, i, k)
    decreases k
  {
    if i < k {
      RunIsFlatMap(states, events, r, i, k - 1);
      RunKeepsLinks(states, events, i, k - 1);
      var e, a, b := events[k - 1], states[k - 1], states[k];
      assert Step(a, e, b);
      StillTable(states[i].mem, states[i].home, a.mem, a.home, r, 4);
      if IsStore(e.op) {
        assert RootStores(a.mem, b.mem, r, e.op.root, StoredPage(e.op), StoredEntry(e.op));
      } else {
        assert FlatKept(a.mem, b.mem, r);
      }
    }
  }

  /** Which stores a root sees is settled as soon as both top-level entries are present. */
  lemma SeenIsFixed(states: seq<State>, events: seq<Event>, r: nat, i: nat, k: nat)
    requires Run(states, events) && i <= k < |events| && IsStore(events[k].op)
    requires BothPresent(states, i, r, events[k].op.root, StoredPage(events[k].op))
    ensures var s, p := events[k].op.root, StoredPage(events[k].op);
            SeenBy(events[k], states[k + 1], r) <==> Next(states[i].mem, r, Top(p)) == Next(states[i].mem, s, Top(p))
  {
    SharingIsFixed(states, events, i, k + 1, r, events[k].op.root, StoredPage(events[k].op));
  }

  /** The plain map after ops. */
  ghost function PlainMap(flat: map<nat, nat>, events: seq<Event>): map<nat, nat> {
    if events == [] then flat else
      var before, op := PlainMap(flat, events[..|events| - 1]), events[|events| - 1].op;
      if IsStore(op) then before[StoredPage(op) := StoredEntry(op)] else before
  }

  /** A root that all stores go through, or that shares the present top-level entries of those they
      go through, is a plain map on its own. */
  lemma RunIsPlainMap(states: seq<State>, events: seq<Event>, r: nat, k: nat)
    requires Run(states, events) && IsTable(states[0].mem, states[0].home, r, 4) && k <= |events|
    requires forall j {:trigger events[j]} :: 0 <= j < |events| ==> SharedAtStart(states[0], events[j].op, r)
    ensures Flat(states[k].mem, r) == PlainMap(Flat(states[0].mem, r), events[..k])
  {
    RunIsFlatMap(states, events, r, 0, k);
    AllSeen(states, events, r, k);
  }

  lemma {:induction false} AllSeen(states: seq<State>, events: seq<Event>, r: nat, k: nat)
    requires Run(states, events) && IsTable(states[0].mem, states[0].home, r, 4) && k <= |events|
    requires forall j {:trigger events[j]} :: 0 <= j < |events| ==> SharedAtStart(states[0], events[j].op, r)
    ensures Updated(states, events, r, 0, k) == PlainMap(Flat(states[0].mem, r), events[..k])
  {
    if k > 0 {
      AllSeen(states, events, r, k - 1);
      assert events[..k][..k - 1] == events[..k - 1];
      if IsStore(events[k - 1].op) { SeenIfShared(states, events, r, k - 1); }
    }
  }

  lemma SeenIfShared(states: seq<State>, events: seq<Event>, r: nat, k: nat)
    requires Run(states, events) && IsTable(states[0].mem, states[0].home, r, 4) && k < |events|
    requires SharedAtStart(states[0], events[k].op, r) && IsStore(events[k].op)
    ensures SeenBy(events[k], states[k + 1], r)
  {
    if events[k].op.root != r { SeenIsFixed(states, events, r, 0, k); }
  }

  ghost predicate SharedAtStart(s: State, op: Op, r: nat) {
    IsStore(op) && op.root != r ==>
      && IsTable(s.mem, s.home, op.root, 4)
      && Next(s.mem, op.root, Top(StoredPage(op))) == Next(s.mem, r, Top(StoredPage(op))) != 0
  }
}
