/** Arenas of equal blocks and big blocks, over the kernel page pool: the state malloc and free keep. */
module ArenaState {
  import opened Prelude
  import opened Bitmap

  const HEADER := 12
  const DESC_CNT := 7

  /** Block size of descriptor `k`: 16, 32, ... 1024. */
  function BlockSize(k: nat): (r: nat)
    requires k < DESC_CNT
    ensures 16 <= r <= 1024
  {
    if k == 0 then 16 else if k == 1 then 32 else if k == 2 then 64 else if k == 3 then 128
    else if k == 4 then 256 else if k == 5 then 512 else 1024
  }

  function PerArena(k: nat): (r: nat)
    requires k < DESC_CNT
    ensures 3 <= r && HEADER + BlockSize(k) * r <= PGSIZE
  {
    (PGSIZE - HEADER) / BlockSize(k)
  }

  /** As many blocks as fit. */
  lemma NoMoreFit(k: nat)
    requires k < DESC_CNT
    ensures HEADER + BlockSize(k) * (PerArena(k) + 1) > PGSIZE
  {
    var s, q := BlockSize(k), (PGSIZE - HEADER) / BlockSize(k);
    assert s * (q + 1) == s * q + s;
  }

  /** pg_no. */
  function PageNo(b: nat): nat { b / PGSIZE }

  /** arena_to_block: block `i` of the arena on page `p`. */
  function BlockAt(p: nat, k: nat, i: nat): nat
    requires k < DESC_CNT
  {
    PGSIZE * p + HEADER + BlockSize(k) * i
  }

  /** The first `n` blocks of the arena on page `p`. */
  function Blocks(p: nat, k: nat, n: nat): (r: set<nat>)
    requires k < DESC_CNT
    decreases n
  {
    if n == 0 then {} else Blocks(p, k, n - 1) + {BlockAt(p, k, n - 1)}
  }

  lemma BlockBounds(p: nat, k: nat, i: nat)
    requires k < DESC_CNT && i < PerArena(k)
    ensures PageNo(BlockAt(p, k, i)) == p
    ensures PGSIZE * p + HEADER <= BlockAt(p, k, i) && BlockAt(p, k, i) + BlockSize(k) <= PGSIZE * (p + 1)
  {
    var s := BlockSize(k);
    assert s * i + s <= s * PerArena(k) by { assert s * (i + 1) <= s * PerArena(k); }
  }

  /** There are `n` of them, all on the page, each ending before the next. */
  lemma {:induction false} BlocksAre(p: nat, k: nat, n: nat)
    requires k < DESC_CNT && n <= PerArena(k)
    ensures |Blocks(p, k, n)| == n
    ensures forall b :: b in Blocks(p, k, n) ==> PageNo(b) == p && b + BlockSize(k) <= BlockAt(p, k, n)
  {
    hide PerArena, BlockSize, PageNo, BlockAt;
    if n > 0 {
      BlocksAre(p, k, n - 1);
      BlockBounds(p, k, n - 1);
      NextBlock(p, k, n - 1);
      BlockAdded(Blocks(p, k, n - 1), BlockAt(p, k, n - 1), BlockSize(k), p);
    }
  }

  lemma BlockAdded(bs: set<nat>, b: nat, size: nat, p: nat)
    requires size > 0 && PageNo(b) == p && forall x :: x in bs ==> PageNo(x) == p && x + size <= b
    ensures |bs + {b}| == |bs| + 1
    ensures forall x :: x in bs + {b} ==> PageNo(x) == p && x + size <= b + size
  {
    hide PageNo;
    assert b !in bs;
  }

  lemma NextBlock(p: nat, k: nat, i: nat)
    requires k < DESC_CNT
    ensures BlockAt(p, k, i + 1) == BlockAt(p, k, i) + BlockSize(k)
  {
  }

  lemma {:induction false} BlockIndex(p: nat, k: nat, n: nat, b: nat) returns (i: nat)
    requires k < DESC_CNT && b in Blocks(p, k, n)
    ensures i < n && b == BlockAt(p, k, i)
  {
    if b == BlockAt(p, k, n - 1) {
      i := n - 1;
    } else {
      i := BlockIndex(p, k, n - 1, b);
    }
  }

  datatype Arena = Small(k: nat, freeCnt: nat) | Big(pages: nat)

  function Pages(x: Arena): nat { if x.Big? then x.pages else 1 }

  /**
   * The pool's bitmap, `first` being its first page and `others` the pages in use outside malloc;
   * the arenas by page; the free lists; and the blocks handed out and not freed.
   */
  datatype Heap = Heap(first: nat, others: seq<bool>, pool: seq<bool>,
                       arenas: map<nat, Arena>, free: seq<seq<nat>>, live: set<nat>)

  ghost function FreeOf(fl: seq<nat>, p: nat): set<nat> {
    set b | b in fl && PageNo(b) == p
  }

  ghost function LiveOf(live: set<nat>, p: nat): set<nat> {
    set b | b in live && PageNo(b) == p
  }

  ghost predicate Distinct(fl: seq<nat>) {
    forall i, j :: 0 <= i < j < |fl| ==> fl[i] != fl[j]
  }

  ghost predicate OnPage(arenas: map<nat, Arena>, p: nat, q: nat) {
    p in arenas && p <= q < p + Pages(arenas[p])
  }

  ghost predicate Held(arenas: map<nat, Arena>, q: nat) {
    exists p :: OnPage(arenas, p, q)
  }

  predicate Apart(p: nat, x: Arena, r: nat, y: Arena) {
    p + Pages(x) <= r || r + Pages(y) <= p
  }

  /** Arenas are on pages of their own. */
  ghost predicate PagesOk(h: Heap) {
    && (forall p :: p in h.arenas ==> Pages(h.arenas[p]) > 0)
    && (forall p, r :: p in h.arenas && r in h.arenas && p != r ==> Apart(p, h.arenas[p], r, h.arenas[r]))
  }

  predicate Other(h: Heap, q: nat) { h.first <= q < h.first + |h.others| && h.others[q - h.first] }

  predicate Taken(h: Heap, q: nat) { h.first <= q < h.first + |h.pool| && h.pool[q - h.first] }

  /** A page is in use exactly when an arena holds it or, apart from that, it is one of the others. */
  ghost predicate PageOk(h: Heap, q: nat) {
    (Taken(h, q) <==> Other(h, q) || Held(h.arenas, q)) && !(Other(h, q) && Held(h.arenas, q))
  }

  ghost predicate PoolOk(h: Heap) {
    |h.pool| == |h.others| && forall q: nat :: PageOk(h, q)
  }

  ghost predicate IsSmall(arenas: map<nat, Arena>, p: nat, k: nat) {
    p in arenas && arenas[p].Small? && arenas[p].k == k
  }

  /** Every node of a free list is a block of an arena of that descriptor, once. */
  ghost predicate ListOk(fl: seq<nat>, arenas: map<nat, Arena>, k: nat) {
    Distinct(fl) && forall b :: b in fl ==> IsSmall(arenas, PageNo(b), k)
  }

  /** An arena's blocks are free or live, and freeCnt counts the free ones. */
  ghost predicate ArenaOk(p: nat, x: Arena, free: seq<seq<nat>>, live: set<nat>)
    requires |free| == DESC_CNT
  {
    match x
    case Small(k, freeCnt) =>
      && k < DESC_CNT && freeCnt == |FreeOf(free[k], p)| && FreeOf(free[k], p) !! LiveOf(live, p)
      && FreeOf(free[k], p) + LiveOf(live, p) == Blocks(p, k, PerArena(k))
    case Big(_) => LiveOf(live, p) == {PGSIZE * p + HEADER}
  }

  ghost predicate HeapOk(h: Heap) {
    && PagesOk(h) && PoolOk(h) && |h.free| == DESC_CNT
    && (forall k :: 0 <= k < DESC_CNT ==> ListOk(h.free[k], h.arenas, k))
    && (forall p :: p in h.arenas ==> ArenaOk(p, h.arenas[p], h.free, h.live))
    && (forall b :: b in h.live ==> PageNo(b) in h.arenas)
  }

  /** No arena is entirely unused. */
  ghost predicate Busy(h: Heap) {
    forall p :: p in h.arenas && h.arenas[p].Small? && h.arenas[p].k < DESC_CNT ==>
      h.arenas[p].freeCnt < PerArena(h.arenas[p].k)
  }

  // ---------- steps ----------

  /** The heap after `pages` pages from page `p` are taken for arena `x`. */
  function WithArena(h: Heap, p: nat, x: Arena): Heap
    requires h.first <= p && p + Pages(x) <= h.first + |h.pool|
  {
    h.(pool := SetRange(h.pool, p - h.first, Pages(x), true), arenas := h.arenas[p := x])
  }

  /** Marking pages along with whether arenas hold them keeps the pool in step. */
  lemma PoolMarked(h: Heap, h': Heap, a: nat, n: nat, value: bool)
    requires PoolOk(h) && h'.first == h.first && h'.others == h.others
    requires h.first <= a && a + n <= h.first + |h.pool| && h'.pool == SetRange(h.pool, a - h.first, n, value)
    requires forall q: nat :: a <= q < a + n ==> !Other(h, q)
    requires forall q: nat :: Held(h'.arenas, q) <==> if a <= q < a + n then value else Held(h.arenas, q)
    ensures PoolOk(h')
  {
    hide Held, SetRange;
    forall q: nat ensures PageOk(h', q) {
      assert PageOk(h, q);
    }
  }

  lemma WithArenaPages(h: Heap, p: nat, x: Arena)
    requires PagesOk(h) && PoolOk(h) && Pages(x) > 0
    requires h.first <= p && p + Pages(x) <= h.first + |h.pool| && RunAt(h.pool, p - h.first, Pages(x), false)
    ensures p !in h.arenas && PagesOk(WithArena(h, p, x)) && PoolOk(WithArena(h, p, x))
  {
    hide Held;
    forall q: nat | p <= q < p + Pages(x) ensures !Held(h.arenas, q) && !Other(h, q) {
      assert PageOk(h, q);
    }
    forall r | r in h.arenas ensures Apart(p, x, r, h.arenas[r]) && Apart(r, h.arenas[r], p, x) {
      var q := if p < r then r else p;
      if q < p + Pages(x) && q < r + Pages(h.arenas[r]) {
        HeldBy(h.arenas, r, q);
        assert false;
      }
    }
    if p in h.arenas {
      HeldBy(h.arenas, p, p);
      assert false;
    }
    var h' := WithArena(h, p, x);
    forall q: nat ensures Held(h'.arenas, q) <==> if p <= q < p + Pages(x) then true else Held(h.arenas, q) {
      HeldWith(h.arenas, p, x, q);
    }
    PoolMarked(h, h', p, Pages(x), true);
  }

  lemma HeldBy(arenas: map<nat, Arena>, p: nat, q: nat)
    requires p in arenas && p <= q < p + Pages(arenas[p])
    ensures Held(arenas, q)
  {
    assert OnPage(arenas, p, q);
  }

  lemma HeldWith(arenas: map<nat, Arena>, p: nat, x: Arena, q: nat)
    requires p !in arenas
    ensures Held(arenas[p := x], q) <==> Held(arenas, q) || p <= q < p + Pages(x)
  {
    var after := arenas[p := x];
    if Held(arenas, q) {
      var r :| OnPage(arenas, r, q);
      assert OnPage(after, r, q);
    }
    if p <= q < p + Pages(x) {
      assert OnPage(after, p, q);
    }
    if Held(after, q) {
      var r :| OnPage(after, r, q);
      if r != p { assert OnPage(arenas, r, q); }
    }
  }

  /** The heap after arena `p`'s pages are given back. */
  function WithoutArena(h: Heap, p: nat): Heap
    requires p in h.arenas && h.first <= p && p + Pages(h.arenas[p]) <= h.first + |h.pool|
  {
    h.(pool := SetRange(h.pool, p - h.first, Pages(h.arenas[p]), false), arenas := h.arenas - {p})
  }

  lemma WithoutArenaPages(h: Heap, p: nat)
    requires PagesOk(h) && PoolOk(h) && p in h.arenas
    ensures h.first <= p && p + Pages(h.arenas[p]) <= h.first + |h.pool|
    ensures RunAt(h.pool, p - h.first, Pages(h.arenas[p]), true)
    ensures PagesOk(WithoutArena(h, p)) && PoolOk(WithoutArena(h, p))
  {
    hide Held;
    var x, rest := h.arenas[p], h.arenas - {p};
    forall q: nat | p <= q < p + Pages(x) ensures Taken(h, q) && !Other(h, q) {
      HeldBy(h.arenas, p, q);
      assert PageOk(h, q);
    }
    assert Taken(h, p) && Taken(h, p + Pages(x) - 1);
    forall i | p - h.first <= i < p - h.first + Pages(x) ensures h.pool[i] {
      assert Taken(h, h.first + i);
    }
    assert rest[p := x] == h.arenas;
    var h' := WithoutArena(h, p);
    forall q: nat ensures Held(h'.arenas, q) <==> if p <= q < p + Pages(x) then false else Held(h.arenas, q) {
      HeldWith(rest, p, x, q);
      if p <= q < p + Pages(x) { NotHeld(h, p, q); }
    }
    PoolMarked(h, h', p, Pages(x), false);
  }

  lemma NotHeld(h: Heap, p: nat, q: nat)
    requires PagesOk(h) && p in h.arenas && p <= q < p + Pages(h.arenas[p])
    ensures !Held(h.arenas - {p}, q)
  {
    forall r | r in h.arenas - {p} ensures !OnPage(h.arenas - {p}, r, q) {
      assert Apart(p, h.arenas[p], r, h.arenas[r]);
    }
  }
}
