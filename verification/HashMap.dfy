/** The open-addressing hash map of sys/include/lib/hashmap.h: linear probing in a window of eight
    slots, removal without tombstones, growth by rehashing into a table of twice the size. */
module HashMap {
  import opened Bits

  const MAX_CHAIN_LENGTH: nat := 8

  /** A pointer to a value; what the map stores and what a lookup answers. */
  datatype Ref<+V> = Null | To(value: V)

  datatype Slot<+V> = Slot(inUse: bool, key: string, data: Ref<V>)

  /** A slot cleared by memset. */
  function EmptySlot<V>(): Slot<V> {
    Slot(false, "", Null)
  }

  // ---------- table sizes ----------

  /** The test of hashmap_create. */
  predicate IsTableSize(n: nat) {
    n != 0 && And(n, n - 1) == 0
  }

  /** n & (n - 1) is zero exactly for the powers of two. */
  lemma {:induction false} TableSizesArePowers(n: nat)
    requires n > 0
    ensures IsTableSize(n) ==> exists k: nat :: n == Pow2(k)
  {
    if n == 1 {
      assert n == Pow2(0);
    } else if n % 2 == 1 {
      assert And(n, n - 1) == 2 * And(n / 2, (n - 1) / 2) && (n - 1) / 2 == n / 2;
      AndSelf(n / 2);
    } else {
      AndBelow(n / 2);
      TableSizesArePowers(n / 2);
      if IsTableSize(n) {
        var k: nat :| n / 2 == Pow2(k);
        assert n == Pow2(k + 1);
      }
    }
  }

  lemma {:induction false} PowersAreTableSizes(k: nat)
    ensures IsTableSize(Pow2(k))
  {
    if k > 0 {
      PowersAreTableSizes(k - 1);
      AndBelow(Pow2(k - 1));
    }
  }

  lemma {:induction false} AndSelf(n: nat)
    ensures And(n, n) == n
  {
    if n > 0 { AndSelf(n / 2); }
  }

  lemma AndBelow(n: nat)
    requires n > 0
    ensures And(2 * n, 2 * n - 1) == 2 * And(n, n - 1)
  {
    assert (2 * n - 1) / 2 == n - 1 && (2 * n) / 2 == n;
    assert (2 * n) % 2 == 0;
  }

  // ---------- the probe window ----------

  /** The slot after curr, around the end of the table. */
  function NextSlot(curr: nat, n: nat): (next: nat)
    requires curr < n
    ensures next < n
  {
    if curr + 1 == n then 0 else curr + 1
  }

  /** The code takes the remainder by the size. */
  lemma NextSlotIsRemainder(curr: nat, n: nat)
    requires curr < n
    ensures (curr + 1) % n == NextSlot(curr, n)
  {
    if curr + 1 < n { DivModUnique(curr + 1, n, 0, curr + 1); }
  }

  /** The i-th slot a probe from start looks at. */
  function Probe(start: nat, i: nat, n: nat): (slot: nat)
    requires start < n
    ensures slot < n
  {
    if i == 0 then start else NextSlot(Probe(start, i - 1, n), n)
  }

  ghost predicate InWindow(start: nat, n: nat, slot: int)
    requires start < n
  {
    exists i: nat :: i < MAX_CHAIN_LENGTH && Probe(start, i, n) == slot
  }

  // ---------- table contents ----------

  /** What a table stands for: the finite map, and in which slot each key is. */
  datatype View<V> = View(items: map<string, Ref<V>>, at: map<string, int>)

  ghost predicate SlotOk<V>(s: seq<Slot<V>>, view: View<V>, i: int)
    requires 0 <= i < |s|
  {
    s[i].inUse ==> s[i].key in view.items && s[i].key in view.at && view.at[s[i].key] == i
  }

  ghost predicate KeyOk<V>(s: seq<Slot<V>>, view: View<V>, hash: string -> nat, k: string)
    requires |s| > 0 && k in view.items
  {
    && k in view.at && 0 <= view.at[k] < |s|
    && s[view.at[k]] == Slot(true, k, view.items[k])
    && InWindow(hash(k) % |s|, |s|, view.at[k])
  }

  ghost predicate TableOk<V>(s: seq<Slot<V>>, view: View<V>, hash: string -> nat) {
    && |s| > 0
    && (forall i {:trigger SlotOk(s, view, i)} :: 0 <= i < |s| ==> SlotOk(s, view, i))
    && (forall k {:trigger KeyOk(s, view, hash, k)} :: k in view.items ==> KeyOk(s, view, hash, k))
  }

  /** The slots in use. */
  ghost function InUse<V>(s: seq<Slot<V>>): set<int> {
    set i | 0 <= i < |s| && s[i].inUse
  }

  /** Every key has its own slot, so there are as many keys as slots in use. */
  lemma {:induction false} KeysFillSlots<V>(s: seq<Slot<V>>, view: View<V>, hash: string -> nat)
    requires TableOk(s, view, hash)
    ensures |InUse(s)| == |view.items|
  {
    forall i | 0 <= i < |s| && s[i].inUse ensures s[i].key in view.items.Keys { assert SlotOk(s, view, i); }
    Bijection(s, view, hash, view.items.Keys, InUse(s));
  }

  lemma {:induction false} Bijection<V>(
    s: seq<Slot<V>>, view: View<V>, hash: string -> nat, ks: set<string>, slots: set<int>)
    requires TableOk(s, view, hash) && ks <= view.items.Keys
    requires forall i :: i in slots <==> 0 <= i < |s| && s[i].inUse && s[i].key in ks
    ensures |slots| == |ks|
    decreases ks
  {
    assert forall i {:trigger i in slots} :: i in slots ==> 0 <= i < |s| && s[i].key in ks;
    if ks == {} {
      assert slots == {};
    } else {
      var k :| k in ks;
      assert KeyOk(s, view, hash, k);
      forall i | i in slots - {view.at[k]} ensures s[i].key in ks - {k} {
        assert SlotOk(s, view, i);
      }
      Bijection(s, view, hash, ks - {k}, slots - {view.at[k]});
    }
  }

  /** Where a key may be written: its own slot, or a free one for a new key. */
  ghost predicate MayPut<V>(s: seq<Slot<V>>, view: View<V>, i: nat, k: string)
    requires i < |s|
  {
    if k in view.items then k in view.at && view.at[k] == i else !s[i].inUse
  }

  function WithKey<V>(view: View<V>, k: string, v: Ref<V>, i: nat): View<V> {
    View(view.items[k := v], view.at[k := i])
  }

  function WithoutKey<V>(view: View<V>, k: string): View<V> {
    View(view.items - {k}, view.at)
  }

  /** Writing a key's slot. */
  lemma PutKeepsTable<V>(s: seq<Slot<V>>, view: View<V>, hash: string -> nat, i: nat, k: string, v: Ref<V>)
    requires TableOk(s, view, hash) && i < |s| && InWindow(hash(k) % |s|, |s|, i) && MayPut(s, view, i, k)
    ensures s[i].inUse <==> k in view.items
    ensures TableOk(s[i := Slot(true, k, v)], WithKey(view, k, v, i), hash)
  {
    var s', view' := s[i := Slot(true, k, v)], WithKey(view, k, v, i);
    if k in view.items { assert KeyOk(s, view, hash, k); }
    assert SlotOk(s, view, i);
    forall j | 0 <= j < |s'| ensures SlotOk(s', view', j) { assert SlotOk(s, view, j); }
    forall k' | k' in view'.items ensures KeyOk(s', view', hash, k') {
      if k' != k { assert KeyOk(s, view, hash, k'); }
    }
  }

  /** Clearing a key's slot. */
  lemma ClearKeepsTable<V>(s: seq<Slot<V>>, view: View<V>, hash: string -> nat, i: nat, e: Slot<V>)
    requires TableOk(s, view, hash) && i < |s| && s[i].inUse && !e.inUse
    ensures s[i].key in view.items && view.items[s[i].key] == s[i].data
    ensures TableOk(s[i := e], WithoutKey(view, s[i].key), hash)
  {
    var k := s[i].key;
    assert SlotOk(s, view, i) && KeyOk(s, view, hash, k);
    var s', view' := s[i := e], WithoutKey(view, k);
    forall j | 0 <= j < |s'| ensures SlotOk(s', view', j) { assert SlotOk(s, view, j); }
    forall k' | k' in view'.items ensures KeyOk(s', view', hash, k') { assert KeyOk(s, view, hash, k'); }
  }

  // ---------- probing ----------

  /** The first count slots of the probe from start do not hold key k. */
  ghost predicate NotAmong<V>(s: seq<Slot<V>>, start: nat, count: nat, k: string)
    requires start < |s|
  {
    forall i: nat {:trigger Probe(start, i, |s|)} ::
      i < count ==> !(s[Probe(start, i, |s|)].inUse && s[Probe(start, i, |s|)].key == k)
  }

  /** A whole window without the key means that the table does not have it. */
  lemma NotInWindow<V>(s: seq<Slot<V>>, view: View<V>, hash: string -> nat, k: string)
    requires TableOk(s, view, hash) && NotAmong(s, hash(k) % |s|, MAX_CHAIN_LENGTH, k)
    ensures k !in view.items
  {
    assert k in view.items ==> KeyOk(s, view, hash, k);
  }

  ghost predicate AllInUse<V>(s: seq<Slot<V>>, start: nat, count: nat)
    requires start < |s|
  {
    forall i: nat {:trigger Probe(start, i, |s|)} :: i < count ==> s[Probe(start, i, |s|)].inUse
  }

  // ---------- when no table has room ----------

  /** The largest table: its size cannot be doubled in 32 bits. */
  const MAX_TABLE_SIZE: nat := 0x8000_0000

  /** In a table of n slots, the ones of key k's window can be held by these eight other keys, each of them
      in its own window. */
  ghost predicate JammedAt(hash: string -> nat, keys: set<string>, n: nat, k: string, holders: seq<string>) {
    && k in keys && |holders| == MAX_CHAIN_LENGTH
    && (forall i: nat {:trigger Holds(hash, keys, n, k, holders, i)} ::
          i < MAX_CHAIN_LENGTH ==> Holds(hash, keys, n, k, holders, i))
    && (forall i, j :: 0 <= i < j < MAX_CHAIN_LENGTH ==> holders[i] != holders[j])
  }

  ghost predicate Holds(hash: string -> nat, keys: set<string>, n: nat, k: string, holders: seq<string>, i: nat)
    requires i < |holders|
  {
    && holders[i] in keys && holders[i] != k && n > 0
    && InWindow(hash(holders[i]) % n, n, Probe(hash(k) % n, i, n))
  }

  /** Some of the keys can fill another one's window in a table of n slots, or all of the table. */
  ghost predicate Jammed(hash: string -> nat, keys: set<string>, n: nat) {
    || |keys| >= n
    || exists k, holders {:trigger JammedAt(hash, keys, n, k, holders)} :: JammedAt(hash, keys, n, k, holders)
  }

  lemma JammedWithMore(hash: string -> nat, keys: set<string>, keys': set<string>, n: nat)
    requires Jammed(hash, keys, n) && keys <= keys'
    ensures Jammed(hash, keys', n)
  {
    SubsetSize(keys, keys');
    if k, holders :| JammedAt(hash, keys, n, k, holders) {
      forall i: nat | i < MAX_CHAIN_LENGTH ensures Holds(hash, keys', n, k, holders, i) {
        assert Holds(hash, keys, n, k, holders, i);
      }
      assert JammedAt(hash, keys', n, k, holders);
    }
  }

  /** A table has the size it had, or twice one that the keys jam. */
  ghost predicate GrownFor(hash: string -> nat, keys: set<string>, before: nat, after: nat) {
    after == before || Jammed(hash, keys, after / 2)
  }

  lemma GrownForMore(hash: string -> nat, keys: set<string>, keys': set<string>, before: nat, after: nat)
    requires GrownFor(hash, keys, before, after) && keys <= keys'
    ensures GrownFor(hash, keys', before, after)
  {
    if after != before { JammedWithMore(hash, keys, keys', after / 2); }
  }

  lemma {:induction false} SubsetSize<T>(a: set<T>, b: set<T>)
    requires a <= b
    ensures |a| <= |b|
    decreases a
  {
    if x :| x in a { SubsetSize(a - {x}, b - {x}); }
  }

  /** Up to eight keys leave room for each other, whatever the hash function. */
  lemma FewKeysAreNotJammed(hash: string -> nat, keys: set<string>, n: nat)
    requires |keys| <= MAX_CHAIN_LENGTH < n
    ensures !Jammed(hash, keys, n)
  {
    if k, holders :| JammedAt(hash, keys, n, k, holders) {
      forall i: nat | i < MAX_CHAIN_LENGTH ensures holders[i] in keys - {k} {
        assert Holds(hash, keys, n, k, holders, i);
      }
      DistinctAmong(holders, keys - {k});
    }
  }

  lemma {:induction false} DistinctAmong<T>(s: seq<T>, all: set<T>)
    requires forall i :: 0 <= i < |s| ==> s[i] in all
    requires forall i, j :: 0 <= i < j < |s| ==> s[i] != s[j]
    ensures |s| <= |all|
  {
    if s != [] {
      var last := s[|s| - 1];
      DistinctAmong(s[..|s| - 1], all - {last});
    }
  }

  /** A probe comes back to no slot within a round of the table. */
  lemma {:induction false} ProbeIs(start: nat, i: nat, n: nat)
    requires start < n && i < n
    ensures Probe(start, i, n) == if start + i < n then start + i else start + i - n
  {
    if i > 0 {
      ProbeIs(start, i - 1, n);
      var p := Probe(start, i - 1, n);
      DivModUnique(p + 1, n, if p + 1 < n then 0 else 1, if p + 1 < n then p + 1 else 0);
    }
  }

  /** The keys in the slots of a window. */
  function WindowKeys<V>(s: seq<Slot<V>>, start: nat): (keys: seq<string>)
    requires start < |s|
    ensures |keys| == MAX_CHAIN_LENGTH
  {
    seq(MAX_CHAIN_LENGTH, i requires 0 <= i < MAX_CHAIN_LENGTH => s[Probe(start, i, |s|)].key)
  }

  lemma WindowKeyAt<V>(s: seq<Slot<V>>, view: View<V>, hash: string -> nat, start: nat, i: nat)
    requires TableOk(s, view, hash) && start < |s| && i < MAX_CHAIN_LENGTH && s[Probe(start, i, |s|)].inUse
    ensures var k, slot := WindowKeys(s, start)[i], Probe(start, i, |s|);
            k in view.items && k in view.at && view.at[k] == slot && InWindow(hash(k) % |s|, |s|, slot)
  {
    var slot := Probe(start, i, |s|);
    assert SlotOk(s, view, slot) && KeyOk(s, view, hash, s[slot].key);
  }

  lemma WindowKeysDiffer<V>(s: seq<Slot<V>>, view: View<V>, hash: string -> nat, start: nat, i: nat, j: nat)
    requires TableOk(s, view, hash) && start < |s| && AllInUse(s, start, MAX_CHAIN_LENGTH)
    requires i < j < MAX_CHAIN_LENGTH <= |s|
    ensures WindowKeys(s, start)[i] != WindowKeys(s, start)[j]
  {
    WindowKeyAt(s, view, hash, start, i);
    WindowKeyAt(s, view, hash, start, j);
    ProbeIs(start, i, |s|);
    ProbeIs(start, j, |s|);
  }

  /** A window in use all over is what a jam is. */
  lemma FullWindowIsJam<V>(s: seq<Slot<V>>, view: View<V>, hash: string -> nat, k: string)
    requires TableOk(s, view, hash) && |s| >= MAX_CHAIN_LENGTH && AllInUse(s, hash(k) % |s|, MAX_CHAIN_LENGTH)
    requires k !in view.items
    ensures Jammed(hash, view.items.Keys + {k}, |s|)
  {
    var start, keys := hash(k) % |s|, view.items.Keys + {k};
    var holders := WindowKeys(s, start);
    forall i: nat | i < MAX_CHAIN_LENGTH ensures Holds(hash, keys, |s|, k, holders, i) {
      WindowKeyAt(s, view, hash, start, i);
    }
    forall i, j | 0 <= i < j < MAX_CHAIN_LENGTH ensures holders[i] != holders[j] {
      WindowKeysDiffer(s, view, hash, start, i, j);
    }
    assert JammedAt(hash, keys, |s|, k, holders);
  }

  /** A window goes all round a table that is no larger. */
  lemma FullSmallTable<V>(s: seq<Slot<V>>, view: View<V>, hash: string -> nat, start: nat)
    requires TableOk(s, view, hash) && start < |s| <= MAX_CHAIN_LENGTH && AllInUse(s, start, MAX_CHAIN_LENGTH)
    ensures |view.items| == |s|
  {
    KeysFillSlots(s, view, hash);
    forall j | 0 <= j < |s| ensures s[j].inUse {
      var i := if j >= start then j - start else j + |s| - start;
      ProbeIs(start, i, |s|);
    }
    assert InUse(s) == UpTo(|s|);
  }

  ghost function UpTo(n: nat): (all: set<int>)
    ensures |all| == n && forall i :: i in all <==> 0 <= i < n
  {
    if n == 0 then {} else UpTo(n - 1) + {n - 1}
  }

  /** A table without room for a key is jammed. */
  lemma NoRoomIsJam<V>(s: seq<Slot<V>>, view: View<V>, hash: string -> nat, k: string)
    requires TableOk(s, view, hash)
    requires |view.items| >= |s| || (k !in view.items && AllInUse(s, hash(k) % |s|, MAX_CHAIN_LENGTH))
    ensures Jammed(hash, view.items.Keys + {k}, |s|)
  {
    if |view.items| < |s| && |s| <= MAX_CHAIN_LENGTH { FullSmallTable(s, view, hash, hash(k) % |s|); }
    if |view.items| >= |s| {
      SubsetSize(view.items.Keys, view.items.Keys + {k});
    } else {
      FullWindowIsJam(s, view, hash, k);
    }
  }

  /** No table, of whatever size, holds more than eight keys of one hash value. */
  lemma CollidersFitWindow<V>(s: seq<Slot<V>>, view: View<V>, hash: string -> nat, ks: set<string>, h: nat)
    requires TableOk(s, view, hash) && ks <= view.items.Keys && forall k :: k in ks ==> hash(k) == h
    ensures |ks| <= MAX_CHAIN_LENGTH
  {
    var start := h % |s|;
    var slots := WindowSlots(start, MAX_CHAIN_LENGTH, |s|);
    forall k | k in ks ensures k in view.at && view.at[k] in slots {
      assert KeyOk(s, view, hash, k);
      var i: nat :| i < MAX_CHAIN_LENGTH && Probe(start, i, |s|) == view.at[k];
    }
    SlotsForKeys(s, view, hash, ks, slots);
  }

  /** The first count slots of a window. */
  ghost function WindowSlots(start: nat, count: nat, n: nat): (slots: set<int>)
    requires start < n
    ensures |slots| <= count && forall i: nat {:trigger Probe(start, i, n)} :: i < count ==> Probe(start, i, n) in slots
  {
    if count == 0 then {} else WindowSlots(start, count - 1, n) + {Probe(start, count - 1, n)}
  }

  lemma {:induction false} SlotsForKeys<V>(
    s: seq<Slot<V>>, view: View<V>, hash: string -> nat, ks: set<string>, slots: set<int>)
    requires TableOk(s, view, hash) && ks <= view.items.Keys
    requires forall k :: k in ks ==> k in view.at && view.at[k] in slots
    ensures |ks| <= |slots|
    decreases ks
  {
    if ks != {} {
      var k :| k in ks;
      assert KeyOk(s, view, hash, k);
      forall k' | k' in ks - {k} ensures k' in view.at && view.at[k'] in slots - {view.at[k]} {
        assert KeyOk(s, view, hash, k');
      }
      SlotsForKeys(s, view, hash, ks - {k}, slots - {view.at[k]});
    }
  }

  /** A table of a hash map. The hash function is any function of the key. */
  class Table<V> {
    const hash: string -> nat
    var tableSize: nat
    var size: nat
    var data: array<Slot<V>>
    ghost var view: View<V>

    ghost predicate Valid()
      reads this, data
    {
      && tableSize == data.Length && tableSize < WORD_MOD && IsTableSize(tableSize)
      && TableOk(data[..], view, hash)
      && size == |view.items|
    }

    /** The finite map this table stands for. */
    ghost function Contents(): map<string, Ref<V>>
      reads this
    {
      view.items
    }

    constructor (hash: string -> nat, n: nat)
      requires IsTableSize(n) && n < WORD_MOD
      ensures Valid() && fresh(data) && tableSize == n && size == 0 && Contents() == map[] && this.hash == hash
    {
      this.hash := hash;
      tableSize := n;
      size := 0;
      data := new Slot<V>[n](_ => EmptySlot());
      view := View(map[], map[]);
    }

    /** hashmap_create, with an allocation that succeeds */
    static method Create(hash: string -> nat, initialSize: nat) returns (m: Table?<V>)
      requires initialSize < WORD_MOD
      ensures m == null <==> !IsTableSize(initialSize)
      ensures m != null ==> fresh(m) && fresh(m.data) && m.Valid() && m.tableSize == initialSize && m.hash == hash
      ensures m != null ==> m.size == 0 && m.Contents() == map[]
    {
      if initialSize == 0 || And(initialSize, initialSize - 1) != 0 {
        return null;
      }
      m := new Table(hash, initialSize);
    }

    /** hashmap_get */
    method Get(k: string) returns (r: Ref<V>)
      requires Valid()
      ensures r == if k in Contents() then Contents()[k] else Null
    {
      ghost var s, start := data[..], hash(k) % tableSize;
      var curr := hash(k) % tableSize;
      var i := 0;
      while i < MAX_CHAIN_LENGTH
        invariant 0 <= i <= MAX_CHAIN_LENGTH && curr == Probe(start, i, tableSize)
        invariant NotAmong(s, start, i, k)
      {
        if data[curr].inUse && data[curr].key == k {
          assert SlotOk(s, view, curr) && KeyOk(s, view, hash, k);
          return data[curr].data;
        }
        NextSlotIsRemainder(curr, tableSize);
        curr := (curr + 1) % tableSize;
        i := i + 1;
      }
      NotInWindow(s, view, hash, k);
      r := Null;
    }

    /** A slot is blanked out and the size reduced: hashmap_remove, lines 296-299, and
        hashmap_iterate_pairs, lines 373-374. */
    method TakeOut(i: nat)
      requires Valid() && i < tableSize && data[i].inUse
      modifies this`size, this`view, data
      ensures Valid() && data[..] == old(data[..])[i := EmptySlot()]
      ensures old(data[i].key) in old(Contents()) && old(Contents())[old(data[i].key)] == old(data[i].data)
      ensures Contents() == old(Contents()) - {old(data[i].key)}
    {
      ghost var s := data[..];
      ClearKeepsTable(s, view, hash, i, EmptySlot());
      view := WithoutKey(view, data[i].key);
      data[i] := EmptySlot();
      size := size - 1;
      assert data[..] == s[i := EmptySlot()];
    }

    /** hashmap_remove */
    method Remove(k: string) returns (removed: bool)
      requires Valid()
      modifies this`size, this`view, data
      ensures Valid() && removed == (k in old(Contents()))
      ensures Contents() == old(Contents()) - {k}
    {
      ghost var s, start := data[..], hash(k) % tableSize;
      var curr := hash(k) % tableSize;
      var i := 0;
      while i < MAX_CHAIN_LENGTH
        invariant 0 <= i <= MAX_CHAIN_LENGTH && curr == Probe(start, i, tableSize)
        invariant NotAmong(s, start, i, k)
        invariant data[..] == s && size == old(size) && view == old(view)
      {
        if data[curr].inUse && data[curr].key == k {
          TakeOut(curr);
          return true;
        }
        NextSlotIsRemainder(curr, tableSize);
        curr := (curr + 1) % tableSize;
        i := i + 1;
      }
      NotInWindow(s, view, hash, k);
      assert Contents() - {k} == Contents();
      removed := false;
    }

    /** hashmap_remove_and_return_key, lines 326-332 */
    method BlankOut(i: nat)
      requires Valid() && i < tableSize && data[i].inUse
      modifies this`size, this`view, data
      ensures Valid() && old(data[i].key) in old(Contents()) && Contents() == old(Contents()) - {old(data[i].key)}
    {
      ghost var s := data[..];
      var e := data[i].(inUse := false, data := Null, key := "");
      ClearKeepsTable(s, view, hash, i, e);
      view := WithoutKey(view, data[i].key);
      data[i] := e;
      size := size - 1;
      assert data[..] == s[i := e];
    }

    /** hashmap_remove_and_return_key: what was stored is the key of the slot */
    method RemoveAndReturnKey(k: string) returns (stored: Ref<string>)
      requires Valid()
      modifies this`size, this`view, data
      ensures Valid() && stored == if k in old(Contents()) then To(k) else Null
      ensures Contents() == old(Contents()) - {k}
    {
      ghost var s, start := data[..], hash(k) % tableSize;
      var curr := hash(k) % tableSize;
      var i := 0;
      while i < MAX_CHAIN_LENGTH
        invariant 0 <= i <= MAX_CHAIN_LENGTH && curr == Probe(start, i, tableSize)
        invariant NotAmong(s, start, i, k)
        invariant data[..] == s && size == old(size) && view == old(view)
      {
        if data[curr].inUse && data[curr].key == k {
          stored := To(data[curr].key);
          BlankOut(curr);
          return;
        }
        NextSlotIsRemainder(curr, tableSize);
        curr := (curr + 1) % tableSize;
        i := i + 1;
      }
      NotInWindow(s, view, hash, k);
      assert Contents() - {k} == Contents();
      stored := Null;
    }

    /** The table can take key k without growing: it is not full, and it has the key already or
        the key's window has a free slot. */
    ghost predicate HasRoom(k: string)
      reads this, data
      requires Valid()
    {
      size < tableSize && (k in Contents() || !AllInUse(data[..], hash(k) % tableSize, MAX_CHAIN_LENGTH))
    }

    /** hashmap_hash_helper: the slot of the key, or a free slot of its window for a key the table
        does not have; it fails if the table is full or the window is. */
    method FindSlot(k: string) returns (found: bool, index: nat)
      requires Valid()
      ensures found ==> index < tableSize && InWindow(hash(k) % tableSize, tableSize, index)
      ensures found ==> MayPut(data[..], view, index, k)
      ensures found == HasRoom(k)
    {
      index := 0;
      if size >= tableSize {
        return false, index;
      }
      ghost var s := data[..];
      var start := hash(k) % tableSize;
      var curr := start;
      var totalInUse, i := 0, 0;
      while i < MAX_CHAIN_LENGTH
        invariant 0 <= i <= MAX_CHAIN_LENGTH && curr == Probe(start, i, tableSize)
        invariant NotAmong(s, start, i, k)
        invariant totalInUse <= i
        invariant totalInUse == i ==> AllInUse(s, start, i)
      {
        var inUse := if data[curr].inUse then 1 else 0;
        totalInUse := totalInUse + inUse;
        if inUse == 1 && data[curr].key == k {
          assert SlotOk(s, view, curr);
          return true, curr;
        }
        NextSlotIsRemainder(curr, tableSize);
        curr := (curr + 1) % tableSize;
        i := i + 1;
      }
      NotInWindow(s, view, hash, k);
      found := false;
      if MAX_CHAIN_LENGTH > totalInUse {
        found, index := FindFree(start);
      }
    }

    /** hashmap_hash_helper, lines 526-539: the first free slot of the window. */
    method FindFree(start: nat) returns (found: bool, index: nat)
      requires Valid() && start < tableSize
      ensures found == !AllInUse(data[..], start, MAX_CHAIN_LENGTH)
      ensures found ==> index < tableSize && !data[index].inUse && InWindow(start, tableSize, index)
    {
      var curr, i := start, 0;
      while i < MAX_CHAIN_LENGTH
        invariant 0 <= i <= MAX_CHAIN_LENGTH && curr == Probe(start, i, tableSize)
        invariant AllInUse(data[..], start, i)
      {
        if !data[curr].inUse {
          return true, curr;
        }
        NextSlotIsRemainder(curr, tableSize);
        curr := (curr + 1) % tableSize;
        i := i + 1;
      }
      found, index := false, 0;
    }

    /** hashmap_put. A table that has no room for the key grows until it has, or until its size can
        no longer be doubled in 32 bits: it fails only if keys of the table jam the largest one. A
        failed put may have lost entries, never invented any. */
    method Put(k: string, v: Ref<V>) returns (ok: bool)
      requires Valid()
      modifies this, data
      ensures Valid() && (data == old(data) || fresh(data)) && tableSize >= old(tableSize)
      ensures ok ==> Contents() == old(Contents())[k := v]
      ensures !ok ==> Submap(Contents(), old(Contents())) && Jammed(hash, old(Contents()).Keys + {k}, MAX_TABLE_SIZE)
      ensures if old(HasRoom(k)) then ok && tableSize == old(tableSize) else ok ==> tableSize >= 2 * old(tableSize)
      ensures GrownFor(hash, old(Contents()).Keys + {k}, old(tableSize), tableSize)
      decreases WORD_MOD - tableSize, 4
    {
      var found, index := FindSlot(k);
      while !found
        invariant Valid() && (data == old(data) || fresh(data)) && tableSize >= old(tableSize)
        invariant Contents() == old(Contents())
        invariant GrownFor(hash, old(Contents()).Keys + {k}, old(tableSize), tableSize)
        invariant found ==> index < tableSize && InWindow(hash(k) % tableSize, tableSize, index)
        invariant if found then MayPut(data[..], view, index, k) else !HasRoom(k)
        invariant if old(HasRoom(k)) then found && tableSize == old(tableSize)
                  else !found || tableSize >= 2 * old(tableSize)
        decreases WORD_MOD - tableSize, !found
      {
        var grown := GrowFor(k);
        if !grown {
          return false;
        }
        found, index := FindSlot(k);
      }
      SetSlot(k, v, index);
      ok := true;
    }

    /** hashmap_put, where there is no room for the key */
    method GrowFor(k: string) returns (grown: bool)
      requires Valid() && !HasRoom(k)
      modifies this, data
      ensures Valid() && (data == old(data) || fresh(data))
      ensures grown ==> Contents() == old(Contents()) && tableSize >= 2 * old(tableSize)
      ensures GrownFor(hash, old(Contents()).Keys + {k}, old(tableSize), tableSize)
      ensures !grown ==> tableSize == old(tableSize) && Submap(Contents(), old(Contents()))
      ensures !grown ==> Jammed(hash, old(Contents()).Keys + {k}, MAX_TABLE_SIZE)
      decreases WORD_MOD - tableSize, 3
    {
      ghost var keys, n := Contents().Keys, tableSize;
      NoRoomIsJam(data[..], view, hash, k);
      grown := Rehash();
      if grown {
        GrownForMore(hash, keys, keys + {k}, 2 * n, tableSize);
      } else if n != MAX_TABLE_SIZE {
        JammedWithMore(hash, keys, keys + {k}, MAX_TABLE_SIZE);
      }
    }

    method Perform(op: Op<V>) returns (ok: bool, answer: seq<Ref<V>>)
      requires Valid()
      modifies this, data
      ensures Valid() && (data == old(data) || fresh(data))
      ensures ok ==> Contents() == Apply(old(Contents()), op) && answer == Answer(old(Contents()), op)
      ensures !ok ==> op.Store? && Jammed(hash, old(Contents()).Keys + {op.key}, MAX_TABLE_SIZE)
    {
      ok, answer := true, [];
      match op {
        case Store(k, v) =>
          ok := Put(k, v);
        case Lookup(k) =>
          var r := Get(k);
          answer := [r];
        case Delete(k) =>
          var _ := Remove(k);
      }
    }

    /** hashmap_put, lines 245-255 */
    method SetSlot(k: string, v: Ref<V>, index: nat)
      requires Valid() && index < tableSize && InWindow(hash(k) % tableSize, tableSize, index)
      requires MayPut(data[..], view, index, k)
      modifies this`size, this`view, data
      ensures Valid() && Contents() == old(Contents())[k := v]
    {
      ghost var s := data[..];
      PutKeepsTable(s, view, hash, index, k, v);
      if !data[index].inUse {
        size := size + 1;
      }
      data[index] := Slot(true, k, v);
      view := WithKey(view, k, v, index);
      assert data[..] == s[index := Slot(true, k, v)];
    }

    /** hashmap_rehash_iterator on slot i: its entry is put into table m and removed here. */
    method MoveSlot(m: Table<V>, i: nat, ghost all: map<string, Ref<V>>) returns (put: bool)
      requires Valid() && m.Valid() && m != this && m.data != data && m.tableSize > tableSize && m.hash == hash
      requires i < tableSize && data[i].inUse && Parted(Contents(), m.Contents(), all)
      modifies this`size, this`view, data, m, m.data
      ensures Valid() && m.Valid() && (m.data == old(m.data) || fresh(m.data)) && m.tableSize >= old(m.tableSize)
      ensures put ==> Parted(Contents(), m.Contents(), all)
      ensures GrownFor(hash, all.Keys, old(m.tableSize), m.tableSize)
      ensures put ==> data[..] == old(data[..])[i := EmptySlot()]
      ensures !put ==> Contents() == old(Contents()) && Jammed(hash, all.Keys, MAX_TABLE_SIZE)
      decreases WORD_MOD - tableSize, 0
    {
      ghost var rest, moved := Contents(), m.Contents();
      var e := data[i];
      assert SlotOk(data[..], view, i);
      PartedKeys(rest, moved, all, e.key);
      put := m.Put(e.key, e.data);
      GrownForMore(hash, moved.Keys + {e.key}, all.Keys, old(m.tableSize), m.tableSize);
      if put {
        TakeOut(i);
        MoveOne(rest, moved, all, e.key);
      } else {
        JammedWithMore(hash, moved.Keys + {e.key}, all.Keys, MAX_TABLE_SIZE);
      }
    }

    /** hashmap_iterate_pairs with hashmap_rehash_iterator */
    method MoveAll(m: Table<V>, ghost all: map<string, Ref<V>>) returns (ok: bool)
      requires Valid() && m.Valid() && m != this && m.data != data && m.tableSize > tableSize && m.hash == hash
      requires Parted(Contents(), m.Contents(), all)
      modifies this`size, this`view, data, m, m.data
      ensures Valid() && m.Valid() && (m.data == old(m.data) || fresh(m.data)) && m.tableSize >= old(m.tableSize)
      ensures GrownFor(hash, all.Keys, old(m.tableSize), m.tableSize)
      ensures ok ==> m.Contents() == all
      ensures !ok ==> Submap(Contents(), all) && Jammed(hash, all.Keys, MAX_TABLE_SIZE)
      decreases WORD_MOD - tableSize, 1
    {
      var i := 0;
      while i < tableSize
        invariant 0 <= i <= tableSize
        invariant Valid() && m.Valid() && (m.data == old(m.data) || fresh(m.data)) && m.tableSize >= old(m.tableSize)
        invariant GrownFor(hash, all.Keys, old(m.tableSize), m.tableSize)
        invariant Parted(Contents(), m.Contents(), all)
        invariant FreeBefore(data[..], i)
      {
        if data[i].inUse {
          PartedIsSubmap(Contents(), m.Contents(), all);
          var put := MoveSlot(m, i, all);
          if !put {
            return false;
          }
        }
        i := i + 1;
      }
      NothingLeft(data[..], view, hash);
      PartedAtLast(m.Contents(), all);
      ok := true;
    }

    /** hashmap_rehash_helper: every entry moves to a table of twice the size, or of a larger one whose
        half the keys can jam; it fails if there is none or the keys jam the largest one. */
    method Rehash() returns (ok: bool)
      requires Valid()
      modifies this, data
      ensures Valid() && (data == old(data) || fresh(data))
      ensures ok ==> Contents() == old(Contents()) && tableSize >= 2 * old(tableSize)
      ensures ok ==> GrownFor(hash, old(Contents()).Keys, 2 * old(tableSize), tableSize)
      ensures !ok ==> tableSize == old(tableSize) && Submap(Contents(), old(Contents()))
      ensures !ok ==> old(tableSize) == MAX_TABLE_SIZE || Jammed(hash, old(Contents()).Keys, MAX_TABLE_SIZE)
      decreases WORD_MOD - tableSize, 2
    {
      DoubledSize(tableSize);
      var newSize := 2 * tableSize % WORD_MOD;
      var m := Create(hash, newSize);
      if m == null {
        return false;
      }
      ghost var all := Contents();
      PartedAtFirst(all);
      ok := MoveAll(m, all);
      if ok { TakeOver(m); }
    }

    /** hashmap_rehash_helper, lines 577-579: the new table's slots become this one's. */
    method TakeOver(m: Table<V>)
      requires m != this && m.Valid() && m.hash == hash
      modifies this
      ensures Valid() && data == m.data && tableSize == m.tableSize && Contents() == m.Contents()
    {
      data, tableSize, size, view := m.data, m.tableSize, m.size, m.view;
    }
  }

  ghost predicate KeptAt<K, V>(a: map<K, V>, b: map<K, V>, k: K)
    requires k in a
  {
    k in b && a[k] == b[k]
  }

  /** Every entry of a is one of b. */
  ghost predicate Submap<K, V>(a: map<K, V>, b: map<K, V>) {
    forall k {:trigger KeptAt(a, b, k)} :: k in a ==> KeptAt(a, b, k)
  }

  lemma DoubledSize(n: nat)
    requires IsTableSize(n) && n < WORD_MOD
    ensures if n == MAX_TABLE_SIZE then 2 * n % WORD_MOD == 0 else 2 * n % WORD_MOD == 2 * n && IsTableSize(2 * n)
  {
    AndBelow(n);
    TableSizesArePowers(n);
    var k: nat :| n == Pow2(k);
    Pow2Of32();
    if k >= 32 { Pow2Monotone(32, k); }
    Pow2Monotone(k, 31);
    assert Pow2(32) == 2 * Pow2(31);
  }

  /** Where a rehash has key k: in exactly one of the two tables, with its value. */
  ghost predicate PartedAt<K, V>(a: map<K, V>, b: map<K, V>, all: map<K, V>, k: K) {
    if k !in all then k !in a && k !in b
    else if k in a then k !in b && a[k] == all[k]
    else k in b && b[k] == all[k]
  }

  ghost predicate Parted<K(!new), V>(a: map<K, V>, b: map<K, V>, all: map<K, V>) {
    forall k {:trigger PartedAt(a, b, all, k)} :: PartedAt(a, b, all, k)
  }

  lemma PartedAtFirst<K(!new), V>(all: map<K, V>)
    ensures Parted(all, map[], all)
  {
  }

  lemma PartedAtLast<K(!new), V>(b: map<K, V>, all: map<K, V>)
    requires Parted(map[], b, all)
    ensures b == all
  {
    forall k ensures k in b <==> k in all { assert PartedAt(map[], b, all, k); }
    forall k | k in all ensures b[k] == all[k] { assert PartedAt(map[], b, all, k); }
  }

  lemma PartedIsSubmap<K(!new), V>(a: map<K, V>, b: map<K, V>, all: map<K, V>)
    requires Parted(a, b, all)
    ensures Submap(a, all)
  {
    forall k | k in a ensures KeptAt(a, all, k) { assert PartedAt(a, b, all, k); }
  }

  lemma PartedKeys<K(!new), V>(a: map<K, V>, b: map<K, V>, all: map<K, V>, k: K)
    requires Parted(a, b, all) && k in a
    ensures b.Keys + {k} <= all.Keys
  {
    assert PartedAt(a, b, all, k);
    forall k' | k' in b ensures k' in all { assert PartedAt(a, b, all, k'); }
  }

  lemma MoveOne<K(!new), V>(a: map<K, V>, b: map<K, V>, all: map<K, V>, k: K)
    requires Parted(a, b, all) && k in a
    ensures Parted(a - {k}, b[k := a[k]], all)
  {
    var a', b' := a - {k}, b[k := a[k]];
    forall k' ensures PartedAt(a', b', all, k') { assert PartedAt(a, b, all, k'); }
  }

  /** The first count slots are free. */
  ghost predicate FreeBefore<V>(s: seq<Slot<V>>, count: nat) {
    count <= |s| && forall j :: 0 <= j < count ==> !s[j].inUse
  }

  /** A table whose slots are all free has no entry. */
  lemma NothingLeft<V>(s: seq<Slot<V>>, view: View<V>, hash: string -> nat)
    requires TableOk(s, view, hash) && FreeBefore(s, |s|)
    ensures view.items == map[]
  {
    forall k ensures k !in view.items {
      assert k in view.items ==> KeyOk(s, view, hash, k);
    }
  }

  // ---------- keys of one hash value ----------

  /** Among keys of one hash value, hashmap_put succeeds exactly if there are eight of them at most. */
  method PutColliding<V>(t: Table<V>, k: string, v: Ref<V>, ghost h: nat) returns (ok: bool)
    requires t.Valid() && forall k' :: k' in t.Contents().Keys + {k} ==> t.hash(k') == h
    modifies t, t.data
    ensures t.Valid() && (t.data == old(t.data) || fresh(t.data))
    ensures ok <==> |old(t.Contents()).Keys + {k}| <= MAX_CHAIN_LENGTH
    ensures ok ==> t.Contents() == old(t.Contents())[k := v]
  {
    ghost var keys := t.Contents().Keys + {k};
    ok := t.Put(k, v);
    if ok {
      assert t.Contents().Keys == keys;
      CollidersFitWindow(t.data[..], t.view, t.hash, keys, h);
    } else if |keys| <= MAX_CHAIN_LENGTH {
      FewKeysAreNotJammed(t.hash, keys, MAX_TABLE_SIZE);
    }
  }

  /** Nine different keys that collide, on a new table: eight puts succeed, the ninth fails. */
  method NinthPutFails<V>(hash: string -> nat, keys: seq<string>, v: Ref<V>, ghost h: nat)
    returns (eight: bool, ninth: bool)
    requires |keys| == 9 && forall i, j :: 0 <= i < j < |keys| ==> keys[i] != keys[j]
    requires forall i :: 0 <= i < |keys| ==> hash(keys[i]) == h
    ensures eight && !ninth
  {
    PowersAreTableSizes(1);
    assert Pow2(1) == 2;
    var t := new Table<V>(hash, 2);
    eight := true;
    var i := 0;
    while i < 8
      invariant 0 <= i <= 8 && eight && fresh(t) && fresh(t.data) && t.Valid() && t.hash == hash
      invariant t.Contents().Keys == Among(keys, i) && |Among(keys, i)| == i
    {
      NextKey(keys, i);
      var ok := PutColliding(t, keys[i], v, h);
      eight := eight && ok;
      i := i + 1;
    }
    NextKey(keys, 8);
    ninth := PutColliding(t, keys[8], v, h);
  }

  /** The first count keys. */
  ghost function Among(keys: seq<string>, count: nat): set<string>
    requires count <= |keys|
  {
    set i | 0 <= i < count :: keys[i]
  }

  lemma NextKey(keys: seq<string>, count: nat)
    requires count < |keys| && forall i, j :: 0 <= i < j < |keys| ==> keys[i] != keys[j]
    ensures Among(keys, count + 1) == Among(keys, count) + {keys[count]}
    ensures |Among(keys, count + 1)| == |Among(keys, count)| + 1
  {
  }

  // ---------- whole runs ----------

  datatype Op<V> = Store(key: string, value: Ref<V>) | Lookup(key: string) | Delete(key: string)

  /** What one operation does to the plain finite map. */
  function Apply<V>(items: map<string, Ref<V>>, op: Op<V>): map<string, Ref<V>> {
    match op
    case Store(k, v) => items[k := v]
    case Lookup(_) => items
    case Delete(k) => items - {k}
  }

  /** What one operation answers on the plain finite map. */
  function Answer<V>(items: map<string, Ref<V>>, op: Op<V>): seq<Ref<V>> {
    if !op.Lookup? then [] else [if op.key in items then items[op.key] else Null]
  }

  /** The plain finite map after ops, and all that was answered. */
  function After<V>(ops: seq<Op<V>>): (map<string, Ref<V>>, seq<Ref<V>>) {
    if ops == [] then (map[], []) else
      var (items, answers) := After(ops[..|ops| - 1]);
      (Apply(items, ops[|ops| - 1]), answers + Answer(items, ops[|ops| - 1]))
  }

  lemma AfterOneMore<V>(ops: seq<Op<V>>, count: nat)
    requires count < |ops|
    ensures var (items, answers) := After(ops[..count]);
            After(ops[..count + 1]) == (Apply(items, ops[count]), answers + Answer(items, ops[count]))
  {
    assert ops[..count + 1][..count] == ops[..count];
  }

  /** A run on a new table of any size, whatever the hash function, answers as a plain finite map
      does, through every growth of the table on the way, up to the first put that fails; and a put
      fails only if the keys of the run up to it jam the largest table. */
  method Replay<V>(hash: string -> nat, initialSize: nat, ops: seq<Op<V>>) returns (count: nat, answers: seq<Ref<V>>)
    requires IsTableSize(initialSize) && initialSize < WORD_MOD
    ensures count <= |ops| && answers == After(ops[..count]).1
    ensures count < |ops| ==>
              ops[count].Store? && Jammed(hash, After(ops[..count]).0.Keys + {ops[count].key}, MAX_TABLE_SIZE)
  {
    var m := new Table<V>(hash, initialSize);
    count, answers := 0, [];
    while count < |ops|
      invariant count <= |ops| && fresh(m) && fresh(m.data) && m.Valid() && m.hash == hash
      invariant (m.Contents(), answers) == After(ops[..count])
    {
      AfterOneMore(ops, count);
      var ok, answer := m.Perform(ops[count]);
      if !ok { return; }
      answers := answers + answer;
      count := count + 1;
    }
  }
}
