/** The segregated free lists: 800 doubly linked lists through the payloads of free blocks, their
    heads, and the two-level bitmap that says which lists are not empty. */
module TlsfLists {
  import opened Bits
  import opened TlsfMapping
  import opened TlsfMemory

  /** A block on a list: the list it is on, and its distance from the list's end (any strictly
      decreasing measure serves). */
  datatype Node = Node(cls: int, rank: nat)

  type Nodes = map<int, Node>

  /** The links of block b agree with its neighbours. nul is the address of block_null, whose own
      links are never relied on. */
  ghost predicate NodeOk(m: Memory, heads: seq<int>, nul: int, L: Nodes, b: int)
    requires |heads| == CLASS_COUNT && b in L
  {
    0 <= L[b].cls < CLASS_COUNT && NextOk(m, nul, L, b) && PrevOk(m, heads, nul, L, b)
  }

  ghost predicate NextOk(m: Memory, nul: int, L: Nodes, b: int)
    requires b in L
  {
    var next := Read(m, b + NEXT_FREE);
    next != nul ==>
      && next in L && L[next].cls == L[b].cls && L[next].rank < L[b].rank
      && Read(m, next + PREV_FREE) == b
  }

  ghost predicate PrevOk(m: Memory, heads: seq<int>, nul: int, L: Nodes, b: int)
    requires |heads| == CLASS_COUNT && b in L && 0 <= L[b].cls < CLASS_COUNT
  {
    var prev := Read(m, b + PREV_FREE);
    if prev == nul then heads[L[b].cls] == b
    else prev in L && L[prev].cls == L[b].cls && Read(m, prev + NEXT_FREE) == b
  }

  ghost predicate HeadOk(m: Memory, heads: seq<int>, nul: int, L: Nodes, k: int)
    requires |heads| == CLASS_COUNT && 0 <= k < CLASS_COUNT
  {
    heads[k] != nul ==> heads[k] in L && L[heads[k]].cls == k && Read(m, heads[k] + PREV_FREE) == nul
  }

  /** The next_free word of c is not the prev_free word of b. */
  ghost predicate LinksApart(b: int, c: int) {
    b + 8 != c
  }

  /** Blocks at these addresses keep their link words apart. */
  ghost predicate Spaced(S: set<int>) {
    forall b, c {:trigger LinksApart(b, c)} :: b in S && c in S ==> LinksApart(b, c)
  }

  ghost predicate Lists(m: Memory, heads: seq<int>, nul: int, L: Nodes) {
    && |heads| == CLASS_COUNT && nul !in L && Spaced(L.Keys + {nul})
    && (forall b {:trigger NodeOk(m, heads, nul, L, b)} :: b in L ==> NodeOk(m, heads, nul, L, b))
    && (forall k {:trigger HeadOk(m, heads, nul, L, k)} :: 0 <= k < CLASS_COUNT ==> HeadOk(m, heads, nul, L, k))
  }

  // ---------- removal ----------

  function RemoveLinks(m: Memory, b: int): Memory {
    var prev, next := Read(m, b + PREV_FREE), Read(m, b + NEXT_FREE);
    m[next + PREV_FREE := prev][prev + NEXT_FREE := next]
  }

  function RemoveHead(m: Memory, heads: seq<int>, b: int, k: int): seq<int>
    requires 0 <= k < |heads|
  {
    if heads[k] == b then heads[k := Read(m, b + NEXT_FREE)] else heads
  }

  lemma RemoveNextOk(m: Memory, heads: seq<int>, nul: int, L: Nodes, b: int, c: int)
    requires Lists(m, heads, nul, L) && b in L && c in L && c != b
    ensures NextOk(RemoveLinks(m, b), nul, L - {b}, c)
  {
    assert NodeOk(m, heads, nul, L, b) && NodeOk(m, heads, nul, L, c);
    var prev, next := Read(m, b + PREV_FREE), Read(m, b + NEXT_FREE);
    var x := Read(m, c + NEXT_FREE);
    assert LinksApart(next, c) && LinksApart(c, prev) && LinksApart(next, prev);
    assert LinksApart(x, prev) && LinksApart(prev, x);
  }

  lemma RemovePrevOk(m: Memory, heads: seq<int>, nul: int, L: Nodes, b: int, c: int)
    requires Lists(m, heads, nul, L) && b in L && c in L && c != b
    ensures 0 <= L[b].cls < CLASS_COUNT && 0 <= L[c].cls < CLASS_COUNT
    ensures PrevOk(RemoveLinks(m, b), RemoveHead(m, heads, b, L[b].cls), nul, L - {b}, c)
  {
    assert NodeOk(m, heads, nul, L, b) && NodeOk(m, heads, nul, L, c);
    var prev, next := Read(m, b + PREV_FREE), Read(m, b + NEXT_FREE);
    var y := Read(m, c + PREV_FREE);
    assert LinksApart(prev, next) && LinksApart(prev, c) && LinksApart(c, next);
    assert LinksApart(next, c) && LinksApart(c, prev) && LinksApart(next, prev);
    assert LinksApart(y, next) && LinksApart(next, y);
    if prev != nul { assert NodeOk(m, heads, nul, L, prev); }
    assert HeadOk(m, heads, nul, L, L[c].cls);
  }

  lemma RemoveNodeOk(m: Memory, heads: seq<int>, nul: int, L: Nodes, b: int, c: int)
    requires Lists(m, heads, nul, L) && b in L && c in L && c != b
    ensures NodeOk(m, heads, nul, L, b)
    ensures NodeOk(RemoveLinks(m, b), RemoveHead(m, heads, b, L[b].cls), nul, L - {b}, c)
  {
    assert NodeOk(m, heads, nul, L, b);
    RemoveNextOk(m, heads, nul, L, b, c);
    RemovePrevOk(m, heads, nul, L, b, c);
  }

  lemma RemoveHeadOk(m: Memory, heads: seq<int>, nul: int, L: Nodes, b: int, k: int)
    requires Lists(m, heads, nul, L) && b in L && 0 <= k < CLASS_COUNT
    ensures NodeOk(m, heads, nul, L, b)
    ensures HeadOk(RemoveLinks(m, b), RemoveHead(m, heads, b, L[b].cls), nul, L - {b}, k)
  {
    assert NodeOk(m, heads, nul, L, b);
    var prev, next := Read(m, b + PREV_FREE), Read(m, b + NEXT_FREE);
    assert HeadOk(m, heads, nul, L, k);
    var h := heads[k];
    assert LinksApart(h, prev) && LinksApart(next, prev);
    assert LinksApart(prev, h) && LinksApart(prev, next);
  }

  /** Unlinking one block leaves every list well formed. */
  lemma RemoveKeepsLists(m: Memory, heads: seq<int>, nul: int, L: Nodes, b: int)
    requires Lists(m, heads, nul, L) && b in L
    ensures NodeOk(m, heads, nul, L, b)
    ensures Lists(RemoveLinks(m, b), RemoveHead(m, heads, b, L[b].cls), nul, L - {b})
  {
    assert NodeOk(m, heads, nul, L, b);
    var m', heads', L' := RemoveLinks(m, b), RemoveHead(m, heads, b, L[b].cls), L - {b};
    forall c | c in L' ensures NodeOk(m', heads', nul, L', c) {
      RemoveNodeOk(m, heads, nul, L, b, c);
    }
    forall k | 0 <= k < CLASS_COUNT ensures HeadOk(m', heads', nul, L', k) {
      RemoveHeadOk(m, heads, nul, L, b, k);
    }
    assert L'.Keys <= L.Keys;
  }

  // ---------- insertion ----------

  function InsertLinks(m: Memory, nul: int, b: int, current: int): Memory {
    m[b + NEXT_FREE := current][b + PREV_FREE := nul][current + PREV_FREE := b]
  }

  /** The block goes to the front of list k. */
  ghost function InsertNode(L: Nodes, b: int, k: int, current: int): Nodes {
    L[b := Node(k, if current in L then L[current].rank + 1 else 0)]
  }

  lemma InsertNextOk(m: Memory, heads: seq<int>, nul: int, L: Nodes, b: int, k: int, c: int)
    requires Lists(m, heads, nul, L) && b !in L && b != nul && 0 <= k < CLASS_COUNT
    requires Spaced(L.Keys + {nul, b})
    requires c in L || c == b
    ensures NextOk(InsertLinks(m, nul, b, heads[k]), nul, InsertNode(L, b, k, heads[k]), c)
  {
    var current := heads[k];
    assert HeadOk(m, heads, nul, L, k);
    assert LinksApart(b, current) && LinksApart(current, b);
    if c != b {
      assert NodeOk(m, heads, nul, L, c);
      var x := Read(m, c + NEXT_FREE);
      assert LinksApart(b, c) && LinksApart(c, b);
      assert LinksApart(b, x) && LinksApart(x, b);
      assert LinksApart(current, c) && LinksApart(c, current);
    }
  }

  lemma InsertPrevOk(m: Memory, heads: seq<int>, nul: int, L: Nodes, b: int, k: int, c: int)
    requires Lists(m, heads, nul, L) && b !in L && b != nul && 0 <= k < CLASS_COUNT
    requires Spaced(L.Keys + {nul, b})
    requires c in L || c == b
    ensures 0 <= InsertNode(L, b, k, heads[k])[c].cls < CLASS_COUNT
    ensures PrevOk(InsertLinks(m, nul, b, heads[k]), heads[k := b], nul, InsertNode(L, b, k, heads[k]), c)
  {
    var current := heads[k];
    assert HeadOk(m, heads, nul, L, k);
    assert LinksApart(b, current) && LinksApart(current, b);
    if c != b {
      assert NodeOk(m, heads, nul, L, c);
      var y := Read(m, c + PREV_FREE);
      assert LinksApart(b, c) && LinksApart(c, b);
      assert LinksApart(b, y) && LinksApart(y, b);
      assert LinksApart(current, y) && LinksApart(y, current);
      assert HeadOk(m, heads, nul, L, L[c].cls);
    }
  }

  lemma InsertNodeOk(m: Memory, heads: seq<int>, nul: int, L: Nodes, b: int, k: int, c: int)
    requires Lists(m, heads, nul, L) && b !in L && b != nul && 0 <= k < CLASS_COUNT
    requires Spaced(L.Keys + {nul, b})
    requires c in L || c == b
    ensures NodeOk(InsertLinks(m, nul, b, heads[k]), heads[k := b], nul, InsertNode(L, b, k, heads[k]), c)
  {
    InsertNextOk(m, heads, nul, L, b, k, c);
    InsertPrevOk(m, heads, nul, L, b, k, c);
  }

  lemma InsertHeadOk(m: Memory, heads: seq<int>, nul: int, L: Nodes, b: int, k: int, j: int)
    requires Lists(m, heads, nul, L) && b !in L && b != nul && 0 <= k < CLASS_COUNT && 0 <= j < CLASS_COUNT
    requires Spaced(L.Keys + {nul, b})
    ensures HeadOk(InsertLinks(m, nul, b, heads[k]), heads[k := b], nul, InsertNode(L, b, k, heads[k]), j)
  {
    var current := heads[k];
    assert HeadOk(m, heads, nul, L, k) && HeadOk(m, heads, nul, L, j);
    assert LinksApart(heads[j], b) && LinksApart(b, heads[j]);
  }

  /** Linking a block in front of list k leaves every list well formed. */
  lemma InsertKeepsLists(m: Memory, heads: seq<int>, nul: int, L: Nodes, b: int, k: int)
    requires Lists(m, heads, nul, L) && b !in L && b != nul && 0 <= k < CLASS_COUNT
    requires Spaced(L.Keys + {nul, b})
    ensures Lists(InsertLinks(m, nul, b, heads[k]), heads[k := b], nul, InsertNode(L, b, k, heads[k]))
  {
    var m', heads', L' := InsertLinks(m, nul, b, heads[k]), heads[k := b], InsertNode(L, b, k, heads[k]);
    forall c | c in L' ensures NodeOk(m', heads', nul, L', c) {
      InsertNodeOk(m, heads, nul, L, b, k, c);
    }
    forall j | 0 <= j < CLASS_COUNT ensures HeadOk(m', heads', nul, L', j) {
      InsertHeadOk(m, heads, nul, L, b, k, j);
    }
    assert L'.Keys + {nul} == L.Keys + {nul, b};
  }

  // ---------- bitmaps ----------

  ghost predicate SlOk(sl: seq<int>, heads: seq<int>, nul: int, f: int, s: int)
    requires |sl| == FL_INDEX_COUNT && |heads| == CLASS_COUNT
    requires 0 <= f < FL_INDEX_COUNT && 0 <= s < SL_INDEX_COUNT
  {
    0 <= sl[f] < WORD_MOD && (Bit(sl[f], s) <==> heads[SL_INDEX_COUNT * f + s] != nul)
  }

  ghost predicate FlOk(flb: int, sl: seq<int>, f: int)
    requires |sl| == FL_INDEX_COUNT && 0 <= flb && 0 <= f < 32
  {
    Bit(flb, f) <==> f < FL_INDEX_COUNT && sl[f] != 0
  }

  /** Bit s of sl[f] is set exactly for the lists that are not empty, and bit f of flb exactly for
      the rows with such a list. */
  ghost predicate Bitmaps(flb: int, sl: seq<int>, heads: seq<int>, nul: int) {
    && |sl| == FL_INDEX_COUNT && |heads| == CLASS_COUNT && 0 <= flb < WORD_MOD
    && (forall f, s {:trigger SlOk(sl, heads, nul, f, s)} ::
          0 <= f < FL_INDEX_COUNT && 0 <= s < SL_INDEX_COUNT ==> SlOk(sl, heads, nul, f, s))
    && (forall f {:trigger FlOk(flb, sl, f)} :: 0 <= f < 32 ==> FlOk(flb, sl, f))
  }

  /** Filling a list sets its bits. */
  lemma SetKeepsBitmaps(flb: int, sl: seq<int>, heads: seq<int>, nul: int, f: int, s: int, b: int)
    requires Bitmaps(flb, sl, heads, nul) && 0 <= f < FL_INDEX_COUNT && 0 <= s < SL_INDEX_COUNT && b != nul
    ensures SlOk(sl, heads, nul, f, s)
    ensures Bitmaps(SetBit(flb, f), sl[f := SetBit(sl[f], s)], heads[SL_INDEX_COUNT * f + s := b], nul)
  {
    assert SlOk(sl, heads, nul, f, s);
    SetBitBits(flb, f);
    SetBitBits(sl[f], s);
    var flb', sl', heads' := SetBit(flb, f), sl[f := SetBit(sl[f], s)], heads[SL_INDEX_COUNT * f + s := b];
    forall g, t | 0 <= g < FL_INDEX_COUNT && 0 <= t < SL_INDEX_COUNT ensures SlOk(sl', heads', nul, g, t) {
      assert SlOk(sl, heads, nul, g, t);
    }
    forall g | 0 <= g < 32 ensures FlOk(flb', sl', g) {
      assert FlOk(flb, sl, g);
      if g == f {
        assert Bit(sl'[f], s);
        ZeroIffNoBit(sl'[f]);
      }
    }
  }

  /** Changing the head of a list that stays non-empty changes no bit. */
  lemma MoveKeepsBitmaps(flb: int, sl: seq<int>, heads: seq<int>, nul: int, k: int, b: int)
    requires Bitmaps(flb, sl, heads, nul) && 0 <= k < CLASS_COUNT && heads[k] != nul && b != nul
    ensures Bitmaps(flb, sl, heads[k := b], nul)
  {
    var heads' := heads[k := b];
    forall g, t | 0 <= g < FL_INDEX_COUNT && 0 <= t < SL_INDEX_COUNT ensures SlOk(sl, heads', nul, g, t) {
      assert SlOk(sl, heads, nul, g, t);
    }
  }

  /** fl_bitmap after the bit of an emptied list has been cleared in its row. */
  function ClearedFl(flb: int, row: int, f: int): int
    requires 0 <= flb < WORD_MOD && 0 <= f < 32
  {
    if row == 0 then ClearBit(flb, f) else flb
  }

  /** Emptying a list clears its bit, and the row's bit with the row's last one. */
  lemma ClearKeepsBitmaps(flb: int, sl: seq<int>, heads: seq<int>, nul: int, f: int, s: int)
    requires Bitmaps(flb, sl, heads, nul) && 0 <= f < FL_INDEX_COUNT && 0 <= s < SL_INDEX_COUNT
    ensures SlOk(sl, heads, nul, f, s)
    ensures Bitmaps(ClearedFl(flb, ClearBit(sl[f], s), f), sl[f := ClearBit(sl[f], s)],
                    heads[SL_INDEX_COUNT * f + s := nul], nul)
  {
    assert SlOk(sl, heads, nul, f, s);
    ClearBitBits(flb, f);
    ClearBitBits(sl[f], s);
    var sl', heads' := sl[f := ClearBit(sl[f], s)], heads[SL_INDEX_COUNT * f + s := nul];
    var flb' := ClearedFl(flb, sl'[f], f);
    forall g, t | 0 <= g < FL_INDEX_COUNT && 0 <= t < SL_INDEX_COUNT ensures SlOk(sl', heads', nul, g, t) {
      assert SlOk(sl, heads, nul, g, t);
    }
    forall g | 0 <= g < 32 ensures FlOk(flb', sl', g) {
      assert FlOk(flb, sl, g);
      if g == f && sl[f] == 0 {
        ZeroIffNoBit(sl[f]);
        ZeroIffNoBit(sl'[f]);
      }
    }
  }

  // ---------- search ----------

  /** All lists from i up to (not including) j are empty. */
  ghost predicate EmptyBetween(heads: seq<int>, nul: int, i: int, j: int) {
    forall k :: 0 <= k < |heads| && i <= k < j ==> heads[k] == nul
  }

  /** ffs of the masked word is the first set bit at or above the given one. */
  lemma FirstBitFrom(w: int, s: int)
    requires 0 <= w < WORD_MOD && 0 <= s < 32
    ensures var masked := FromBit(w, s);
            && (masked == 0 ==> forall j :: s <= j < 32 ==> !Bit(w, j))
            && (masked != 0 ==> s <= Ffs(masked) < 32 && Bit(w, Ffs(masked))
                                && forall j :: s <= j < Ffs(masked) ==> !Bit(w, j))
  {
    var masked := FromBit(w, s);
    FromBitBits(w, s);
    ZeroIffNoBit(masked);
    if masked != 0 {
      var i := Ffs(masked);
      FfsOfWord(masked);
      forall j | s <= j < i ensures !Bit(w, j) { assert !Bit(masked, j); }
    }
  }

  lemma EmptyRowPart(flb: int, sl: seq<int>, heads: seq<int>, nul: int, f: int, s: int, t: int)
    requires Bitmaps(flb, sl, heads, nul) && 0 <= f < FL_INDEX_COUNT && 0 <= s <= t <= SL_INDEX_COUNT
    requires 0 <= sl[f] && forall j :: s <= j < t ==> !Bit(sl[f], j)
    ensures EmptyBetween(heads, nul, SL_INDEX_COUNT * f + s, SL_INDEX_COUNT * f + t)
  {
    forall k | 0 <= k < |heads| && SL_INDEX_COUNT * f + s <= k < SL_INDEX_COUNT * f + t ensures heads[k] == nul {
      assert SlOk(sl, heads, nul, f, k - SL_INDEX_COUNT * f);
    }
  }

  lemma EmptyRows(flb: int, sl: seq<int>, heads: seq<int>, nul: int, f: int, g: int)
    requires Bitmaps(flb, sl, heads, nul) && 0 <= f <= g <= FL_INDEX_COUNT
    requires forall j :: f <= j < g ==> !Bit(flb, j)
    ensures EmptyBetween(heads, nul, SL_INDEX_COUNT * f, SL_INDEX_COUNT * g)
  {
    forall k | 0 <= k < |heads| && SL_INDEX_COUNT * f <= k < SL_INDEX_COUNT * g ensures heads[k] == nul {
      var j, t := k / SL_INDEX_COUNT, k % SL_INDEX_COUNT;
      assert FlOk(flb, sl, j) && SlOk(sl, heads, nul, j, t);
      ZeroIffNoBit(sl[j]);
    }
  }

  /** The first step of search_suitable_block: the row of the request, from its list on. */
  lemma SearchRow(flb: int, sl: seq<int>, heads: seq<int>, nul: int, f: int, s: int)
    requires Bitmaps(flb, sl, heads, nul) && 0 <= f < FL_INDEX_COUNT && 0 <= s < SL_INDEX_COUNT
    ensures 0 <= sl[f] < WORD_MOD
    ensures var map1 := FromBit(sl[f], s);
            && (map1 == 0 ==> EmptyBetween(heads, nul, SL_INDEX_COUNT * f + s, SL_INDEX_COUNT * f + SL_INDEX_COUNT))
            && (map1 != 0 ==>
                  && s <= Ffs(map1) < SL_INDEX_COUNT && heads[SL_INDEX_COUNT * f + Ffs(map1)] != nul
                  && EmptyBetween(heads, nul, SL_INDEX_COUNT * f + s, SL_INDEX_COUNT * f + Ffs(map1)))
  {
    assert SlOk(sl, heads, nul, f, s);
    FirstBitFrom(sl[f], s);
    var map1 := FromBit(sl[f], s);
    if map1 == 0 {
      EmptyRowPart(flb, sl, heads, nul, f, s, SL_INDEX_COUNT);
    } else {
      EmptyRowPart(flb, sl, heads, nul, f, s, Ffs(map1));
      assert SlOk(sl, heads, nul, f, Ffs(map1));
    }
  }

  /** The second step: the first later row with a list that is not empty, and its first list. */
  lemma SearchRows(flb: int, sl: seq<int>, heads: seq<int>, nul: int, f: int)
    requires Bitmaps(flb, sl, heads, nul) && 1 <= f <= FL_INDEX_COUNT
    ensures var map1 := FromBit(flb, f);
            && (map1 == 0 ==> EmptyBetween(heads, nul, SL_INDEX_COUNT * f, CLASS_COUNT))
            && (map1 != 0 ==>
                  var g := Ffs(map1);
                  && f <= g < FL_INDEX_COUNT && 0 < sl[g] < WORD_MOD
                  && Ffs(sl[g]) < SL_INDEX_COUNT && heads[SL_INDEX_COUNT * g + Ffs(sl[g])] != nul
                  && EmptyBetween(heads, nul, SL_INDEX_COUNT * f, SL_INDEX_COUNT * g + Ffs(sl[g])))
  {
    FirstBitFrom(flb, f);
    var map1 := FromBit(flb, f);
    if map1 == 0 {
      EmptyRows(flb, sl, heads, nul, f, FL_INDEX_COUNT);
    } else {
      var g := Ffs(map1);
      assert FlOk(flb, sl, g) && SlOk(sl, heads, nul, g, 0);
      FfsOfWord(sl[g]);
      EmptyRows(flb, sl, heads, nul, f, g);
      EmptyRowPart(flb, sl, heads, nul, g, 0, Ffs(sl[g]));
      assert SlOk(sl, heads, nul, g, Ffs(sl[g]));
    }
  }

  lemma EmptyTwice(heads: seq<int>, nul: int, i: int, j: int, k: int)
    requires EmptyBetween(heads, nul, i, j) && EmptyBetween(heads, nul, j, k)
    ensures EmptyBetween(heads, nul, i, k)
  {
  }

  /** Both steps, when the row of the request has no list left. */
  lemma SearchBoth(flb: int, sl: seq<int>, heads: seq<int>, nul: int, f: int, s: int)
    requires Bitmaps(flb, sl, heads, nul) && 0 <= f < FL_INDEX_COUNT && 0 <= s < SL_INDEX_COUNT
    requires 0 <= sl[f] < WORD_MOD && FromBit(sl[f], s) == 0
    ensures var map1 := FromBit(flb, f + 1);
            && (map1 == 0 ==> EmptyBetween(heads, nul, SL_INDEX_COUNT * f + s, CLASS_COUNT))
            && (map1 != 0 ==>
                  var g := Ffs(map1);
                  && f < g < FL_INDEX_COUNT && 0 < sl[g] < WORD_MOD
                  && Ffs(sl[g]) < SL_INDEX_COUNT && heads[SL_INDEX_COUNT * g + Ffs(sl[g])] != nul
                  && EmptyBetween(heads, nul, SL_INDEX_COUNT * f + s, SL_INDEX_COUNT * g + Ffs(sl[g])))
  {
    var map1, start, next := FromBit(flb, f + 1), SL_INDEX_COUNT * f + s, SL_INDEX_COUNT * (f + 1);
    SearchRow(flb, sl, heads, nul, f, s);
    SearchRows(flb, sl, heads, nul, f + 1);
    if map1 == 0 {
      EmptyTwice(heads, nul, start, next, CLASS_COUNT);
    } else {
      var g := Ffs(map1);
      EmptyTwice(heads, nul, start, next, SL_INDEX_COUNT * g + Ffs(sl[g]));
    }
  }
}
