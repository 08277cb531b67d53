/** What each step of malloc and free does to the arenas, and that all of it stays consistent. */
module ArenaSteps {
  import opened Prelude
  import opened Bitmap
  import opened ArenaState

  /** Blocks 0 to n - 1 of the arena on page `p`, in order. */
  function BlockSeq(p: nat, k: nat, n: nat): (r: seq<nat>)
    requires k < DESC_CNT
    ensures forall b :: b in r <==> b in Blocks(p, k, n)
    decreases n
  {
    if n == 0 then [] else BlockSeq(p, k, n - 1) + [BlockAt(p, k, n - 1)]
  }

  lemma {:induction false} BlockSeqDistinct(p: nat, k: nat, n: nat)
    requires k < DESC_CNT && n <= PerArena(k)
    ensures Distinct(BlockSeq(p, k, n))
  {
    if n > 0 {
      hide PerArena, BlockSize, PageNo;
      BlockSeqDistinct(p, k, n - 1);
      BlocksAre(p, k, n - 1);
      NextBlock(p, k, n - 1);
      BlockBounds(p, k, n - 1);
      var last, before := BlockAt(p, k, n - 1), BlockSeq(p, k, n - 1);
      forall b | b in before ensures b != last {
        assert b in Blocks(p, k, n - 1);
      }
    }
  }

  /** Replacing an arena's header changes no page. */
  lemma SamePages(h: Heap, p: nat, x: Arena)
    requires PagesOk(h) && PoolOk(h) && p in h.arenas && Pages(x) == Pages(h.arenas[p])
    ensures PagesOk(h.(arenas := h.arenas[p := x])) && PoolOk(h.(arenas := h.arenas[p := x]))
  {
    var h' := h.(arenas := h.arenas[p := x]);
    forall q: nat ensures PageOk(h', q) {
      assert PageOk(h, q);
      forall r: nat ensures OnPage(h'.arenas, r, q) <==> OnPage(h.arenas, r, q) {
      }
      assert Held(h'.arenas, q) <==> Held(h.arenas, q);
    }
  }

  /** Nothing free or live is on a page without an arena. */
  lemma NothingFree(fl: seq<nat>, arenas: map<nat, Arena>, k: nat, p: nat)
    requires ListOk(fl, arenas, k) && !IsSmall(arenas, p, k)
    ensures FreeOf(fl, p) == {}
  {
  }

  lemma NothingLive(h: Heap, p: nat)
    requires HeapOk(h) && p !in h.arenas
    ensures LiveOf(h.live, p) == {}
  {
  }

  // ---------- a new arena ----------

  function NewArena(h: Heap, p: nat, k: nat): Heap
    requires h.first <= p < h.first + |h.pool| && k < DESC_CNT == |h.free|
  {
    var g := WithArena(h, p, Small(k, PerArena(k)));
    g.(free := h.free[k := h.free[k] + BlockSeq(p, k, PerArena(k))])
  }

  lemma NewArenaKeeps(h: Heap, p: nat, k: nat)
    requires HeapOk(h) && h.first <= p < h.first + |h.pool| && !h.pool[p - h.first] && k < DESC_CNT
    ensures HeapOk(NewArena(h, p, k)) && p !in h.arenas
  {
    hide PagesOk, PoolOk, PerArena, BlockSize, SetRange, PageNo, ListOk, ArenaOk, Blocks, BlockSeq;
    var x, h' := Small(k, PerArena(k)), NewArena(h, p, k);
    WithArenaPages(h, p, x);
    SameArenas(WithArena(h, p, x), h');
    forall j | 0 <= j < DESC_CNT ensures ListOk(h'.free[j], h'.arenas, j) {
      assert ListOk(h.free[j], h.arenas, j);
      MoreArenas(h.free[j], h.arenas, j, p, x);
      if j == k { NewListOk(h.free[k], h.arenas, p, k, x); }
    }
    forall q | q in h.arenas ensures ArenaOk(q, h'.arenas[q], h'.free, h'.live) {
      NewSame(q, h.arenas[q], h.free, h.live, p, k);
    }
    NothingLive(h, p);
    NewArenaOk(p, k, h.free, h.live, h.arenas);
  }

  lemma SameArenas(h: Heap, h': Heap)
    requires PagesOk(h) && PoolOk(h)
    requires h'.arenas == h.arenas && h'.pool == h.pool && h'.others == h.others && h'.first == h.first
    ensures PagesOk(h') && PoolOk(h')
  {
    forall q: nat ensures PageOk(h', q) {
      assert PageOk(h, q);
    }
  }

  lemma MoreArenas(fl: seq<nat>, arenas: map<nat, Arena>, k: nat, p: nat, x: Arena)
    requires ListOk(fl, arenas, k) && p !in arenas
    ensures ListOk(fl, arenas[p := x], k)
  {
  }

  lemma NewListOk(fl: seq<nat>, arenas: map<nat, Arena>, p: nat, k: nat, x: Arena)
    requires ListOk(fl, arenas, k) && p !in arenas && k < DESC_CNT && x.Small? && x.k == k
    ensures ListOk(fl + BlockSeq(p, k, PerArena(k)), arenas[p := x], k)
  {
    hide PerArena, BlockSize, PageNo, Blocks, BlockSeq;
    BlockSeqDistinct(p, k, PerArena(k));
    BlocksAre(p, k, PerArena(k));
    var more := BlockSeq(p, k, PerArena(k));
    forall b | b in fl ensures b !in more && IsSmall(arenas[p := x], PageNo(b), k) {
      assert IsSmall(arenas, PageNo(b), k);
    }
    DistinctAppend(fl, more);
  }

  lemma DistinctAppend(a: seq<nat>, b: seq<nat>)
    requires Distinct(a) && Distinct(b) && forall x :: x in a ==> x !in b
    ensures Distinct(a + b)
  {
    var c := a + b;
    forall i, j | 0 <= i < j < |c| ensures c[i] != c[j] {
      if i < |a| <= j { assert c[i] in a && c[j] in b; }
    }
  }

  /** Other arenas are as they were. */
  lemma NewSame(q: nat, y: Arena, free: seq<seq<nat>>, live: set<nat>, p: nat, k: nat)
    requires |free| == DESC_CNT && k < DESC_CNT && ArenaOk(q, y, free, live) && q != p
    ensures ArenaOk(q, y, free[k := free[k] + BlockSeq(p, k, PerArena(k))], live)
  {
    hide PerArena, BlockSize, PageNo, Blocks, BlockSeq;
    BlocksAre(p, k, PerArena(k));
    var more := BlockSeq(p, k, PerArena(k));
    assert FreeOf(free[k] + more, q) == FreeOf(free[k], q);
  }

  lemma NewArenaOk(p: nat, k: nat, free: seq<seq<nat>>, live: set<nat>, arenas: map<nat, Arena>)
    requires |free| == DESC_CNT && k < DESC_CNT && ListOk(free[k], arenas, k) && p !in arenas && LiveOf(live, p) == {}
    ensures ArenaOk(p, Small(k, PerArena(k)), free[k := free[k] + BlockSeq(p, k, PerArena(k))], live)
  {
    hide PerArena, BlockSize, PageNo, Blocks, BlockSeq;
    BlocksAre(p, k, PerArena(k));
    NothingFree(free[k], arenas, k, p);
    var more := BlockSeq(p, k, PerArena(k));
    forall b | b in free[k] ensures PageNo(b) != p {
      assert b !in FreeOf(free[k], p);
    }
    assert FreeOf(free[k] + more, p) == Blocks(p, k, PerArena(k));
  }

  // ---------- taking a block and giving it back ----------

  function SetCount(arenas: map<nat, Arena>, p: nat, k: nat, cnt: nat): map<nat, Arena> {
    arenas[p := Small(k, cnt)]
  }

  /** Pops the first block of a free list. */
  function Take(h: Heap, k: nat): Heap
    requires k < |h.free| && h.free[k] != [] && IsSmall(h.arenas, PageNo(h.free[k][0]), k)
    requires h.arenas[PageNo(h.free[k][0])].freeCnt > 0
  {
    var b := h.free[k][0];
    var p := PageNo(b);
    h.(free := h.free[k := h.free[k][1..]], live := h.live + {b},
       arenas := SetCount(h.arenas, p, k, h.arenas[p].freeCnt - 1))
  }

  lemma TakeKeeps(h: Heap, k: nat)
    requires HeapOk(h) && k < DESC_CNT && h.free[k] != []
    ensures var b := h.free[k][0];
            && IsSmall(h.arenas, PageNo(b), k) && h.arenas[PageNo(b)].freeCnt > 0 && b !in h.live
            && HeapOk(Take(h, k))
  {
    hide PagesOk, PoolOk, PerArena, BlockSize, PageNo, Blocks, ArenaOk, ListOk;
    var b := h.free[k][0];
    var p := PageNo(b);
    assert ListOk(h.free[k], h.arenas, k);
    FrontIs(h.free[k], h.arenas, k);
    assert h.free[k] == [b] + h.free[k][1..];
    TakeArena(p, h.arenas[p], h.free, h.live, b, h.free[k][1..]);
    var h' := Take(h, k);
    SamePages(h, p, h'.arenas[p]);
    SameArenas(h.(arenas := h'.arenas), h');
    forall j | 0 <= j < DESC_CNT ensures ListOk(h'.free[j], h'.arenas, j) {
      Recount(h.free[j], h.arenas, j, p, k, h'.arenas[p].freeCnt);
      if j == k { ListTail(h.free[k], h'.arenas, k); }
    }
    forall q | q in h.arenas && q != p ensures ArenaOk(q, h'.arenas[q], h'.free, h'.live) {
      TakeOther(q, h.arenas[q], h.free, h.live, k);
    }
  }

  lemma FrontIs(fl: seq<nat>, arenas: map<nat, Arena>, k: nat)
    requires ListOk(fl, arenas, k) && fl != []
    ensures IsSmall(arenas, PageNo(fl[0]), k) && fl[0] !in fl[1..]
  {
  }

  lemma ListTail(fl: seq<nat>, arenas: map<nat, Arena>, k: nat)
    requires ListOk(fl, arenas, k) && fl != []
    ensures ListOk(fl[1..], arenas, k)
  {
  }

  lemma Recount(fl: seq<nat>, arenas: map<nat, Arena>, j: nat, p: nat, k: nat, cnt: nat)
    requires ListOk(fl, arenas, j) && IsSmall(arenas, p, k)
    ensures ListOk(fl, SetCount(arenas, p, k, cnt), j)
  {
  }

  /** The arena of the block taken counts one less free. */
  lemma TakeArena(p: nat, x: Arena, free: seq<seq<nat>>, live: set<nat>, b: nat, rest: seq<nat>)
    requires |free| == DESC_CNT && x.Small? && ArenaOk(p, x, free, live)
    requires free[x.k] == [b] + rest && PageNo(b) == p && b !in rest
    ensures b !in live && x.freeCnt > 0
    ensures ArenaOk(p, Small(x.k, x.freeCnt - 1), free[x.k := rest], live + {b})
  {
    hide PerArena, BlockSize, PageNo, Blocks;
    var before, after := FreeOf([b] + rest, p), FreeOf(rest, p);
    assert before == after + {b} && b !in after;
    assert b !in LiveOf(live, p);
    assert LiveOf(live + {b}, p) == LiveOf(live, p) + {b};
  }

  lemma TakeOther(q: nat, y: Arena, free: seq<seq<nat>>, live: set<nat>, k: nat)
    requires |free| == DESC_CNT && k < DESC_CNT && free[k] != [] && PageNo(free[k][0]) != q && ArenaOk(q, y, free, live)
    ensures ArenaOk(q, y, free[k := free[k][1..]], live + {free[k][0]})
  {
    hide PerArena, BlockSize, PageNo, Blocks;
    var fl, b := free[k], free[k][0];
    assert fl == [b] + fl[1..];
    assert FreeOf(fl[1..], q) == FreeOf(fl, q);
    assert LiveOf(live + {b}, q) == LiveOf(live, q);
  }

  /** Puts a live block at the front of its free list. */
  function Give(h: Heap, b: nat, k: nat): Heap
    requires k < |h.free| && IsSmall(h.arenas, PageNo(b), k)
  {
    var p := PageNo(b);
    h.(free := h.free[k := [b] + h.free[k]], live := h.live - {b},
       arenas := SetCount(h.arenas, p, k, h.arenas[p].freeCnt + 1))
  }

  lemma GiveKeeps(h: Heap, b: nat, k: nat)
    requires HeapOk(h) && k < DESC_CNT && b in h.live && IsSmall(h.arenas, PageNo(b), k)
    ensures HeapOk(Give(h, b, k)) && b !in h.free[k]
  {
    hide PagesOk, PoolOk, PerArena, BlockSize, PageNo, Blocks, ArenaOk, ListOk;
    var p := PageNo(b);
    assert ListOk(h.free[k], h.arenas, k);
    GiveArena(p, h.arenas[p], h.free, h.live, b);
    var h' := Give(h, b, k);
    SamePages(h, p, h'.arenas[p]);
    SameArenas(h.(arenas := h'.arenas), h');
    forall j | 0 <= j < DESC_CNT ensures ListOk(h'.free[j], h'.arenas, j) {
      Recount(h.free[j], h.arenas, j, p, k, h'.arenas[p].freeCnt);
      if j == k { ListPush(h.free[k], h'.arenas, k, b); }
    }
    forall q | q in h.arenas && q != p ensures ArenaOk(q, h'.arenas[q], h'.free, h'.live) {
      GiveOther(q, h.arenas[q], h.free, h.live, b, k);
    }
  }

  lemma ListPush(fl: seq<nat>, arenas: map<nat, Arena>, k: nat, b: nat)
    requires ListOk(fl, arenas, k) && b !in fl && IsSmall(arenas, PageNo(b), k)
    ensures ListOk([b] + fl, arenas, k)
  {
    DistinctAppend([b], fl);
  }

  lemma GiveArena(p: nat, x: Arena, free: seq<seq<nat>>, live: set<nat>, b: nat)
    requires |free| == DESC_CNT && x.Small? && ArenaOk(p, x, free, live) && b in live && PageNo(b) == p
    ensures b !in free[x.k]
    ensures ArenaOk(p, Small(x.k, x.freeCnt + 1), free[x.k := [b] + free[x.k]], live - {b})
  {
    hide PerArena, BlockSize, PageNo, Blocks;
    var fl := free[x.k];
    assert b in LiveOf(live, p);
    assert b !in FreeOf(fl, p);
    assert FreeOf([b] + fl, p) == FreeOf(fl, p) + {b};
    assert LiveOf(live - {b}, p) == LiveOf(live, p) - {b};
  }

  lemma GiveOther(q: nat, y: Arena, free: seq<seq<nat>>, live: set<nat>, b: nat, k: nat)
    requires |free| == DESC_CNT && k < DESC_CNT && PageNo(b) != q && ArenaOk(q, y, free, live)
    ensures ArenaOk(q, y, free[k := [b] + free[k]], live - {b})
  {
    hide PerArena, BlockSize, PageNo, Blocks;
    assert FreeOf([b] + free[k], q) == FreeOf(free[k], q);
    assert LiveOf(live - {b}, q) == LiveOf(live, q);
  }

  // ---------- an arena entirely unused ----------

  lemma {:induction false} SubsetFull<T>(a: set<T>, b: set<T>)
    requires a <= b && |a| >= |b|
    ensures a == b
  {
    if x :| x in b && x !in a {
      SubsetSize(a, b - {x});
      assert false;
    }
  }

  /** When every block is counted free, all are on the free list and none is live. */
  lemma AllFree(p: nat, x: Arena, free: seq<seq<nat>>, live: set<nat>)
    requires |free| == DESC_CNT && x.Small? && ArenaOk(p, x, free, live) && x.freeCnt >= PerArena(x.k)
    ensures x.freeCnt == PerArena(x.k) && FreeOf(free[x.k], p) == Blocks(p, x.k, PerArena(x.k)) && LiveOf(live, p) == {}
  {
    hide PerArena, BlockSize, PageNo, Blocks;
    BlocksAre(p, x.k, PerArena(x.k));
    var f, l := FreeOf(free[x.k], p), LiveOf(live, p);
    SubsetSize(f, f + l);
    SubsetFull(f, f + l);
    assert l <= f + l;
  }

  function DropArena(h: Heap, p: nat, k: nat, rest: seq<nat>): Heap
    requires k < |h.free| && p in h.arenas && h.first <= p && p + Pages(h.arenas[p]) <= h.first + |h.pool|
  {
    WithoutArena(h, p).(free := h.free[k := rest])
  }

  /** Giving an unused arena's page back, its blocks off the free list. */
  lemma DropKeeps(h: Heap, p: nat, k: nat, rest: seq<nat>)
    requires HeapOk(h) && k < DESC_CNT && IsSmall(h.arenas, p, k) && h.arenas[p].freeCnt >= PerArena(k)
    requires Distinct(rest) && forall b :: b in rest <==> b in h.free[k] && b !in Blocks(p, k, PerArena(k))
    ensures h.first <= p && p + Pages(h.arenas[p]) <= h.first + |h.pool| && HeapOk(DropArena(h, p, k, rest))
  {
    hide PagesOk, PoolOk, PerArena, BlockSize, PageNo, Blocks, ArenaOk, ListOk, SetRange;
    AllFree(p, h.arenas[p], h.free, h.live);
    WithoutArenaPages(h, p);
    var h' := DropArena(h, p, k, rest);
    SameArenas(WithoutArena(h, p), h');
    forall j | 0 <= j < DESC_CNT ensures ListOk(h'.free[j], h'.arenas, j) {
      assert ListOk(h.free[j], h.arenas, j);
      if j == k { RestList(h.free[k], h.arenas, k, p, rest); } else { FewerArenas(h.free[j], h.arenas, j, p, k); }
    }
    forall q | q in h'.arenas ensures ArenaOk(q, h'.arenas[q], h'.free, h'.live) {
      DropOther(q, h.arenas[q], h.free, h.live, p, k, rest);
    }
    forall b | b in h.live ensures PageNo(b) in h'.arenas {
      assert PageNo(b) in h.arenas && b !in LiveOf(h.live, p);
    }
  }

  lemma RestList(fl: seq<nat>, arenas: map<nat, Arena>, k: nat, p: nat, rest: seq<nat>)
    requires ListOk(fl, arenas, k) && k < DESC_CNT && FreeOf(fl, p) == Blocks(p, k, PerArena(k))
    requires Distinct(rest) && forall b :: b in rest <==> b in fl && b !in Blocks(p, k, PerArena(k))
    ensures ListOk(rest, arenas - {p}, k)
  {
    hide PerArena, BlockSize, PageNo, Blocks;
    forall b | b in rest ensures IsSmall(arenas - {p}, PageNo(b), k) {
      assert IsSmall(arenas, PageNo(b), k) && b !in FreeOf(fl, p);
    }
  }

  lemma FewerArenas(fl: seq<nat>, arenas: map<nat, Arena>, j: nat, p: nat, k: nat)
    requires ListOk(fl, arenas, j) && IsSmall(arenas, p, k) && j != k
    ensures ListOk(fl, arenas - {p}, j)
  {
    forall b | b in fl ensures IsSmall(arenas - {p}, PageNo(b), j) {
      assert IsSmall(arenas, PageNo(b), j);
    }
  }

  lemma DropOther(q: nat, y: Arena, free: seq<seq<nat>>, live: set<nat>, p: nat, k: nat, rest: seq<nat>)
    requires |free| == DESC_CNT && k < DESC_CNT && q != p && ArenaOk(q, y, free, live)
    requires forall b :: b in rest <==> b in free[k] && b !in Blocks(p, k, PerArena(k))
    ensures ArenaOk(q, y, free[k := rest], live)
  {
    hide PerArena, BlockSize, PageNo, Blocks;
    BlocksAre(p, k, PerArena(k));
    assert FreeOf(rest, q) == FreeOf(free[k], q);
  }

  // ---------- big blocks ----------

  function NewBig(h: Heap, p: nat, n: nat): Heap
    requires h.first <= p && p + n <= h.first + |h.pool|
  {
    WithArena(h, p, Big(n)).(live := h.live + {PGSIZE * p + HEADER})
  }

  lemma NewBigKeeps(h: Heap, p: nat, n: nat)
    requires HeapOk(h) && n > 0 && h.first <= p && p + n <= h.first + |h.pool| && RunAt(h.pool, p - h.first, n, false)
    ensures HeapOk(NewBig(h, p, n)) && PGSIZE * p + HEADER !in h.live
  {
    hide PagesOk, PoolOk, PerArena, BlockSize, Blocks, ArenaOk, ListOk, SetRange;
    var b, h' := PGSIZE * p + HEADER, NewBig(h, p, n);
    assert PageNo(b) == p;
    WithArenaPages(h, p, Big(n));
    SameArenas(WithArena(h, p, Big(n)), h');
    forall j | 0 <= j < DESC_CNT ensures ListOk(h'.free[j], h'.arenas, j) {
      MoreArenas(h.free[j], h.arenas, j, p, Big(n));
    }
    NothingLive(h, p);
    forall q | q in h.arenas ensures ArenaOk(q, h'.arenas[q], h'.free, h'.live) {
      BigOther(q, h.arenas[q], h.free, h.live, b);
    }
    BigItself(p, n, h.free, h.live);
    assert b !in LiveOf(h.live, p);
  }

  lemma BigItself(p: nat, n: nat, free: seq<seq<nat>>, live: set<nat>)
    requires |free| == DESC_CNT && LiveOf(live, p) == {}
    ensures ArenaOk(p, Big(n), free, live + {PGSIZE * p + HEADER})
  {
    var b := PGSIZE * p + HEADER;
    assert LiveOf(live + {b}, p) == LiveOf(live, p) + {b};
  }

  lemma BigOther(q: nat, y: Arena, free: seq<seq<nat>>, live: set<nat>, b: nat)
    requires |free| == DESC_CNT && PageNo(b) != q && ArenaOk(q, y, free, live)
    ensures ArenaOk(q, y, free, live + {b}) && ArenaOk(q, y, free, live - {b})
  {
    hide PerArena, BlockSize, PageNo, Blocks;
    assert LiveOf(live + {b}, q) == LiveOf(live, q);
    assert LiveOf(live - {b}, q) == LiveOf(live, q);
  }

  function FreeBig(h: Heap, b: nat): Heap
    requires var p := PageNo(b); p in h.arenas && h.first <= p && p + Pages(h.arenas[p]) <= h.first + |h.pool|
  {
    WithoutArena(h, PageNo(b)).(live := h.live - {b})
  }

  lemma FreeBigKeeps(h: Heap, b: nat)
    requires HeapOk(h) && b in h.live && PageNo(b) in h.arenas && h.arenas[PageNo(b)].Big?
    ensures var p := PageNo(b); h.first <= p && p + Pages(h.arenas[p]) <= h.first + |h.pool|
    ensures HeapOk(FreeBig(h, b)) && b == PGSIZE * PageNo(b) + HEADER
  {
    hide PagesOk, PoolOk, PerArena, BlockSize, PageNo, Blocks, ListOk, SetRange;
    var p := PageNo(b);
    assert ArenaOk(p, h.arenas[p], h.free, h.live) && b in LiveOf(h.live, p);
    WithoutArenaPages(h, p);
    var h' := FreeBig(h, b);
    SameArenas(WithoutArena(h, p), h');
    forall j | 0 <= j < DESC_CNT ensures ListOk(h'.free[j], h'.arenas, j) {
      NoBigNodes(h.free[j], h.arenas, j, p);
    }
    forall q | q in h'.arenas ensures ArenaOk(q, h'.arenas[q], h'.free, h'.live) {
      BigOther(q, h.arenas[q], h.free, h.live, b);
    }
    forall c | c in h'.live ensures PageNo(c) != p {
      assert c in LiveOf(h.live, p) <==> PageNo(c) == p;
    }
  }

  lemma NoBigNodes(fl: seq<nat>, arenas: map<nat, Arena>, k: nat, p: nat)
    requires ListOk(fl, arenas, k) && p in arenas && arenas[p].Big?
    ensures ListOk(fl, arenas - {p}, k)
  {
    forall b | b in fl ensures IsSmall(arenas - {p}, PageNo(b), k) {
      assert IsSmall(arenas, PageNo(b), k);
    }
  }
}
