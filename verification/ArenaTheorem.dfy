/** What a consistent heap guarantees: disjoint blocks, and every page back once all blocks are freed. */
module ArenaTheorem {
  import opened Prelude
  import opened ArenaState
  import opened ArenaSteps

  /** A block handed out, or on a free list. */
  ghost predicate IsCell(h: Heap, b: nat)
    requires |h.free| == DESC_CNT
  {
    b in h.live || exists k :: 0 <= k < DESC_CNT && b in h.free[k]
  }

  /** The bytes at a block: block_size. */
  function Capacity(h: Heap, b: nat): int
    requires PageNo(b) in h.arenas
  {
    match h.arenas[PageNo(b)]
    case Small(k, _) => if k < DESC_CNT then BlockSize(k) else 0
    case Big(n) => PGSIZE * n - HEADER
  }

  /** A cell is one of its arena's blocks. */
  lemma CellBlock(h: Heap, b: nat)
    requires HeapOk(h) && IsCell(h, b)
    ensures PageNo(b) in h.arenas
    ensures var x := h.arenas[PageNo(b)];
            if x.Small? then x.k < DESC_CNT && b in Blocks(PageNo(b), x.k, PerArena(x.k))
            else b == PGSIZE * PageNo(b) + HEADER
  {
    hide PagesOk, PoolOk, PerArena, BlockSize, PageNo, Blocks;
    var p := PageNo(b);
    if b !in h.live {
      var k :| 0 <= k < DESC_CNT && b in h.free[k];
      assert ListOk(h.free[k], h.arenas, k);
      assert IsSmall(h.arenas, p, k);
      assert b in FreeOf(h.free[k], p);
    } else {
      assert b in LiveOf(h.live, p);
    }
    assert ArenaOk(p, h.arenas[p], h.free, h.live);
  }

  /** A cell lies in its arena's pages, past the header. */
  lemma CellInside(h: Heap, b: nat)
    requires HeapOk(h) && IsCell(h, b)
    ensures PageNo(b) in h.arenas
    ensures PGSIZE * PageNo(b) + HEADER <= b && b + Capacity(h, b) <= PGSIZE * (PageNo(b) + Pages(h.arenas[PageNo(b)]))
  {
    CellBlock(h, b);
    var p := PageNo(b);
    var x := h.arenas[p];
    if x.Small? {
      var i := BlockIndex(p, x.k, PerArena(x.k), b);
      BlockBounds(p, x.k, i);
    }
  }

  /** Blocks live and free never overlap. */
  lemma CellsDisjoint(h: Heap, b: nat, c: nat)
    requires HeapOk(h) && IsCell(h, b) && IsCell(h, c) && b < c
    ensures PageNo(b) in h.arenas && b + Capacity(h, b) <= c
  {
    CellInside(h, b);
    CellInside(h, c);
    CellBlock(h, b);
    CellBlock(h, c);
    var p, r := PageNo(b), PageNo(c);
    if p == r {
      var k := h.arenas[p].k;
      var i := BlockIndex(p, k, PerArena(k), b);
      var j := BlockIndex(p, k, PerArena(k), c);
      BlockOrder(p, k, i, j);
    } else {
      hide HeapOk, Blocks, PageNo;
      assert Apart(p, h.arenas[p], r, h.arenas[r]) by { PagesApart(h, p, r); }
    }
  }

  lemma PagesApart(h: Heap, p: nat, r: nat)
    requires HeapOk(h) && p in h.arenas && r in h.arenas && p != r
    ensures Apart(p, h.arenas[p], r, h.arenas[r]) && Pages(h.arenas[r]) > 0 && Pages(h.arenas[p]) > 0
  {
  }

  lemma BlockOrder(p: nat, k: nat, i: nat, j: nat)
    requires k < DESC_CNT && BlockAt(p, k, i) < BlockAt(p, k, j)
    ensures BlockAt(p, k, i) + BlockSize(k) <= BlockAt(p, k, j)
  {
    var s := BlockSize(k);
    assert j <= i ==> s * j <= s * i;
    assert i < j ==> s * (i + 1) <= s * j;
  }

  /** No block overlaps an arena's header. */
  lemma HeadersDisjoint(h: Heap, b: nat, p: nat)
    requires HeapOk(h) && IsCell(h, b) && p in h.arenas
    ensures PageNo(b) in h.arenas && (b + Capacity(h, b) <= PGSIZE * p || PGSIZE * p + HEADER <= b)
  {
    CellInside(h, b);
    if PageNo(b) != p {
      PagesApart(h, p, PageNo(b));
    }
  }

  /** With all blocks freed, every page is back in the pool and the free lists are empty. */
  lemma AllReturned(h: Heap)
    requires HeapOk(h) && Busy(h) && h.live == {}
    ensures h.arenas == map[] && h.pool == h.others && forall k :: 0 <= k < DESC_CNT ==> h.free[k] == []
  {
    hide PageNo, BlockSize, Blocks;
    forall p ensures p !in h.arenas {
      if p in h.arenas { ArenaHasLive(h, p); }
    }
    forall k | 0 <= k < DESC_CNT ensures h.free[k] == [] {
      assert ListOk(h.free[k], h.arenas, k);
      if h.free[k] != [] { FrontIs(h.free[k], h.arenas, k); }
    }
    forall i | 0 <= i < |h.pool| ensures h.pool[i] == h.others[i] {
      var q := h.first + i;
      assert PageOk(h, q);
      forall r: nat ensures !OnPage(h.arenas, r, q) {
      }
    }
  }

  /** An arena is kept only while a block in it is live. */
  lemma ArenaHasLive(h: Heap, p: nat)
    requires HeapOk(h) && Busy(h) && p in h.arenas
    ensures LiveOf(h.live, p) != {}
  {
    var x := h.arenas[p];
    assert ArenaOk(p, x, h.free, h.live);
    if x.Small? {
      BlocksAre(p, x.k, PerArena(x.k));
    }
  }
}
