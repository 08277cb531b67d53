/** malloc and free. */
module ArenaKernel {
  import opened Prelude
  import opened Bitmap
  import opened ArenaState
  import opened ArenaSteps
  import opened ArenaTheorem

  /** The block sizes malloc_init sets up. */
  method DescSizes() returns (sizes: seq<nat>)
    ensures |sizes| == DESC_CNT && forall k :: 0 <= k < DESC_CNT ==> sizes[k] == BlockSize(k)
  {
    sizes := [];
    var size := 16;
    while size < PGSIZE / 2
      invariant |sizes| <= DESC_CNT
      invariant size == if |sizes| < DESC_CNT then BlockSize(|sizes|) else PGSIZE / 2
      invariant forall k :: 0 <= k < |sizes| ==> sizes[k] == BlockSize(k)
      decreases DESC_CNT - |sizes|
    {
      sizes := sizes + [size];
      size := size * 2;
    }
  }

  /** The smallest descriptor whose blocks hold `size` bytes, or DESC_CNT. */
  method FindDesc(size: nat) returns (k: nat)
    ensures k <= DESC_CNT && (k < DESC_CNT ==> BlockSize(k) >= size)
    ensures forall j :: 0 <= j < k ==> BlockSize(j) < size
    ensures k == DESC_CNT <==> size > 1024
  {
    k := 0;
    while k < DESC_CNT && BlockSize(k) < size
      invariant k <= DESC_CNT && forall j :: 0 <= j < k ==> BlockSize(j) < size
    {
      k := k + 1;
    }
    assert BlockSize(DESC_CNT - 1) == 1024;
  }

  /** Pages asked for a big block, in 32-bit arithmetic. */
  function PageCount(size: nat): nat {
    (size + HEADER + PGSIZE - 1) % WORD / PGSIZE
  }

  /** A big block has the size asked for exactly when that arithmetic does not wrap. */
  lemma BigEnough(size: nat)
    requires size < WORD && PageCount(size) > 0
    ensures PGSIZE * PageCount(size) - HEADER >= size <==> size + HEADER + PGSIZE - 1 < WORD
    ensures PGSIZE * (PageCount(size) - 1) < size + HEADER
  {
  }

  /** Descriptor `k` is the smallest with blocks of at least `size` bytes. */
  predicate Serves(k: nat, size: nat) {
    k < DESC_CNT && size <= BlockSize(k) && (k > 0 ==> BlockSize(k - 1) < size)
  }

  /** There is nothing to give: a small request needs a free block or a page, a big one a run of pages. */
  ghost predicate Starved(h: Heap, size: nat) {
    if size <= 1024 then
      && FirstRun(h.pool, 0, 1, false).None?
      && exists k: nat :: Serves(k, size) && k < |h.free| && h.free[k] == []
    else FirstRun(h.pool, 0, PageCount(size), false).None?
  }

  /** The largest request: one page is taken and 4084 bytes come back. */
  lemma WrappedRequest()
    ensures PageCount(WORD - 1) == 1
    ensures PGSIZE * PageCount(WORD - 1) - HEADER == 4084
  {
  }

  /** The new block `b` is the only thing callers gain, with at least `size` bytes unless size_t wrapped. */
  ghost predicate Granted(h: Heap, size: nat, b: nat, h': Heap) {
    && b !in h.live && h'.live == h.live + {b} && PageNo(b) in h'.arenas
    && (Capacity(h', b) >= size <==> size + HEADER + PGSIZE - 1 < WORD)
  }

  lemma StarvedSmall(h: Heap, k: nat, size: nat)
    requires size <= 1024 && k < |h.free| == DESC_CNT
    requires size <= BlockSize(k) && forall j :: 0 <= j < k ==> BlockSize(j) < size
    ensures Starved(h, size) <==> h.free[k] == [] && FirstRun(h.pool, 0, 1, false).None?
  {
    assert Serves(k, size);
    assert forall j: nat :: Serves(j, size) ==> j == k;
  }

  class Allocator {
    const first: nat
    ghost const others: seq<bool>
    var pool: seq<bool>
    var arenas: map<nat, Arena>
    var free: seq<seq<nat>>
    ghost var live: set<nat>

    ghost function Abs(): Heap
      reads this
    {
      Heap(first, others, pool, arenas, free, live)
    }

    ghost predicate Valid()
      reads this
    {
      HeapOk(Abs()) && Busy(Abs())
    }

    /** malloc_init, over a pool in which some pages are in use. */
    constructor (first: nat, pool: seq<bool>)
      ensures Valid() && live == {} && this.first == first && others == pool && this.pool == pool
    {
      this.first, others, this.pool, arenas, live := first, pool, pool, map[], {};
      this.free := seq(DESC_CNT, _ => []);
      new;
      forall q: nat ensures PageOk(Abs(), q) {
        forall p: nat ensures !OnPage(arenas, p, q) {
        }
      }
    }

    /** palloc_get_multiple from the kernel pool, as a page number. */
    method FindPages(n: nat) returns (r: Option<nat>)
      requires n > 0
      ensures r.Some? ==> first <= r.value && r.value + n <= first + |pool| && RunAt(pool, r.value - first, n, false)
      ensures r.None? <==> FirstRun(pool, 0, n, false).None?
    {
      var idx := BitmapScan(pool, 0, n, false);
      r := if idx.Some? then Some(first + idx.value) else None;
    }

    /** A request too big for any descriptor. */
    method MallocBig(size: nat) returns (r: Option<nat>)
      requires Valid() && 0 < size < WORD
      modifies this
      ensures Valid()
      ensures r.None? ==> Abs() == old(Abs())
      ensures r.Some? ==> Granted(old(Abs()), size, r.value, Abs())
      ensures r.None? <==> PageCount(size) == 0 || FirstRun(old(pool), 0, PageCount(size), false).None?
    {
      hide HeapOk, PageNo;
      var n := PageCount(size);
      if n == 0 {
        return None;
      }
      var p := FindPages(n);
      if p.None? {
        return None;
      }
      NewBigKeeps(Abs(), p.value, n);
      FreshPage(Abs(), p.value, n);
      BigEnough(size);
      pool := BitmapSetMultiple(pool, p.value - first, n, true);
      arenas := arenas[p.value := Big(n)];
      var b := PGSIZE * p.value + HEADER;
      live := live + {b};
      BigPage(p.value);
      r := Some(b);
    }

    /** Sets a new arena up and puts its blocks at the end of the free list. */
    method AddArena(k: nat, p: nat)
      requires HeapOk(Abs()) && k < DESC_CNT && first <= p < first + |pool| && !pool[p - first]
      modifies this`pool, this`arenas, this`free
      ensures HeapOk(Abs()) && Abs() == NewArena(old(Abs()), p, k) && p !in old(arenas)
    {
      hide HeapOk, PerArena, BlockSize, BlockAt, Blocks;
      NewArenaKeeps(Abs(), p, k);
      assert |free| == DESC_CNT by { HeapShape(Abs()); }
      pool := BitmapSetMultiple(pool, p - first, 1, true);
      arenas := arenas[p := Small(k, PerArena(k))];
      var i := 0;
      label filled:
      while i < PerArena(k)
        invariant pool == old@filled(pool) && arenas == old@filled(arenas)
        invariant i <= PerArena(k) && |free| == DESC_CNT && free[k] == old(free)[k] + BlockSeq(p, k, i)
        invariant forall j :: 0 <= j < DESC_CNT && j != k ==> free[j] == old(free)[j]
      {
        free := free[k := free[k] + [BlockAt(p, k, i)]];
        i := i + 1;
      }
      assert free == old(free)[k := old(free)[k] + BlockSeq(p, k, PerArena(k))];
    }

    /** malloc of at most 1024 bytes from descriptor `k`. */
    method MallocSmall(k: nat, size: nat) returns (r: Option<nat>)
      requires Valid() && k < DESC_CNT && 0 < size <= BlockSize(k)
      modifies this
      ensures Valid()
      ensures r.None? ==> Abs() == old(Abs())
      ensures r.Some? ==> Granted(old(Abs()), size, r.value, Abs())
      ensures r.None? <==> |old(free)| == DESC_CNT && old(free)[k] == [] && FirstRun(old(pool), 0, 1, false).None?
    {
      hide HeapOk, PageNo, PerArena, RunAt, Blocks;
      assert |free| == DESC_CNT by { HeapShape(Abs()); }
      ghost var added: Option<nat> := None;
      if free[k] == [] {
        var p := FindPages(1);
        if p.None? {
          return None;
        }
        AddArena(k, p.value);
        added := p;
        NewFront(old(Abs()), p.value, k);
      }
      TakeKeeps(Abs(), k);
      TakeBusy(old(Abs()), Abs(), k, added);
      var b := free[k][0];
      var p := PageNo(b);
      free := free[k := free[k][1..]];
      arenas := arenas[p := Small(k, arenas[p].freeCnt - 1)];
      live := live + {b};
      r := Some(b);
    }

    /** malloc. */
    method Malloc(size: nat) returns (r: Option<nat>)
      requires Valid() && size < WORD
      modifies this
      ensures Valid()
      ensures r.None? ==> Abs() == old(Abs())
      ensures r.Some? ==> Granted(old(Abs()), size, r.value, Abs())
      ensures r.None? <==> size == 0 || (size > 1024 && PageCount(size) == 0) || Starved(old(Abs()), size)
    {
      hide HeapOk, Busy, Granted;
      if size == 0 {
        return None;
      }
      HeapShape(Abs());
      var k := FindDesc(size);
      if k == DESC_CNT {
        r := MallocBig(size);
      } else {
        r := MallocSmall(k, size);
        StarvedSmall(old(Abs()), k, size);
      }
    }

    /** Takes the blocks of an unused arena off its free list. */
    method Unlist(p: nat, k: nat)
      requires k < |free| == DESC_CNT && Distinct(free[k])
      modifies this`free
      ensures |free| == DESC_CNT && free == old(free)[k := free[k]] && Distinct(free[k])
      ensures forall b :: b in free[k] <==> b in old(free)[k] && b !in Blocks(p, k, PerArena(k))
    {
      hide PerArena, BlockSize, BlockAt;
      var i := 0;
      while i < PerArena(k)
        invariant i <= PerArena(k) && |free| == DESC_CNT && free == old(free)[k := free[k]] && Distinct(free[k])
        invariant forall b :: b in free[k] <==> b in old(free)[k] && b !in Blocks(p, k, i)
      {
        free := free[k := Without(free[k], BlockAt(p, k, i))];
        i := i + 1;
      }
    }

    /** free: the block is no longer live, and an arena left unused goes back to the pool. */
    method Free(block: Option<nat>)
      requires Valid() && (block.Some? ==> block.value in live)
      modifies this
      ensures Valid() && live == if block.Some? then old(live) - {block.value} else old(live)
    {
      hide HeapOk, PageNo, PerArena, BlockSize, Blocks;
      if block.None? {
        return;
      }
      var b := block.value;
      var p := PageNo(b);
      LivePage(Abs(), b);
      if arenas[p].Small? {
        var k := arenas[p].k;
        GiveKeeps(Abs(), b, k);
        GiveBusy(Abs(), b, k);
        free := free[k := [b] + free[k]];
        arenas := arenas[p := Small(k, arenas[p].freeCnt + 1)];
        live := live - {b};
        if arenas[p].freeCnt >= PerArena(k) {
          ghost var h := Abs();
          HeapShape(h);
          Unlist(p, k);
          DropKeeps(h, p, k, free[k]);
          DropBusy(h, p, k, free[k]);
          pool := BitmapSetMultiple(pool, p - first, 1, false);
          arenas := arenas - {p};
        }
      } else {
        FreeBigKeeps(Abs(), b);
        FreeBigBusy(Abs(), b);
        pool := BitmapSetMultiple(pool, p - first, arenas[p].pages, false);
        arenas := arenas - {p};
        live := live - {b};
      }
    }
  }

  // ---------- supporting facts ----------

  lemma BigPage(p: nat)
    ensures PageNo(PGSIZE * p + HEADER) == p
  {
  }

  lemma HeapShape(h: Heap)
    requires HeapOk(h)
    ensures |h.free| == DESC_CNT && forall k :: 0 <= k < DESC_CNT ==> Distinct(h.free[k])
  {
    forall k | 0 <= k < DESC_CNT ensures Distinct(h.free[k]) {
      assert ListOk(h.free[k], h.arenas, k);
    }
  }

  /** The list without `b`, in the same order. */
  function Without(fl: seq<nat>, b: nat): (r: seq<nat>)
    ensures forall c :: c in r ==> c in fl
    ensures Distinct(fl) ==> Distinct(r) && forall c :: c in r <==> c in fl && c != b
  {
    if fl == [] then []
    else
      assert Distinct(fl) ==> Distinct(fl[1..]);
      if fl[0] == b then fl[1..] else
      var rest := Without(fl[1..], b);
      assert fl == [fl[0]] + fl[1..];
      assert Distinct(fl) ==> Distinct([fl[0]] + rest) by {
        if Distinct(fl) { DistinctAppend([fl[0]], rest); }
      }
      [fl[0]] + rest
  }

  /** Pages about to be taken carry no arena. */
  lemma FreshPage(h: Heap, p: nat, n: nat)
    requires HeapOk(h) && n > 0 && h.first <= p && p + n <= h.first + |h.pool| && RunAt(h.pool, p - h.first, n, false)
    ensures p !in h.arenas
  {
    WithArenaPages(h, p, Big(n));
  }

  /** The first block of a list just filled is the new arena's. */
  lemma NewFront(h: Heap, p: nat, k: nat)
    requires k < DESC_CNT == |h.free| && h.free[k] == [] && h.first <= p < h.first + |h.pool|
    ensures NewArena(h, p, k).free[k] != [] && PageNo(NewArena(h, p, k).free[k][0]) == p
  {
    BlocksAre(p, k, PerArena(k));
    var fl := NewArena(h, p, k).free[k];
    assert fl == BlockSeq(p, k, PerArena(k));
    assert fl[0] in Blocks(p, k, PerArena(k));
  }

  lemma TakeBusy(h: Heap, h': Heap, k: nat, added: Option<nat>)
    requires HeapOk(h') && k < DESC_CNT && h'.free[k] != [] && Busy(h)
    requires if added.None? then h' == h
             else h'.arenas == h.arenas[added.value := Small(k, PerArena(k))] && PageNo(h'.free[k][0]) == added.value
    requires IsSmall(h'.arenas, PageNo(h'.free[k][0]), k) && h'.arenas[PageNo(h'.free[k][0])].freeCnt > 0
    ensures Busy(Take(h', k))
  {
    hide HeapOk, PageNo;
  }

  lemma LivePage(h: Heap, b: nat)
    requires HeapOk(h) && b in h.live
    ensures PageNo(b) in h.arenas && |h.free| == DESC_CNT
    ensures h.arenas[PageNo(b)].Small? ==> h.arenas[PageNo(b)].k < DESC_CNT
  {
    assert ArenaOk(PageNo(b), h.arenas[PageNo(b)], h.free, h.live);
  }

  /** After a block is given back only its own arena can be unused. */
  lemma GiveBusy(h: Heap, b: nat, k: nat)
    requires Busy(h) && k < |h.free| && k < DESC_CNT && IsSmall(h.arenas, PageNo(b), k)
    ensures Give(h, b, k).arenas[PageNo(b)].freeCnt < PerArena(k) ==> Busy(Give(h, b, k))
    ensures forall q :: q in h.arenas && q != PageNo(b) && h.arenas[q].Small? && h.arenas[q].k < DESC_CNT ==>
              h.arenas[q].freeCnt < PerArena(h.arenas[q].k)
  {
    hide PageNo;
  }

  lemma DropBusy(h: Heap, p: nat, k: nat, rest: seq<nat>)
    requires k < |h.free| && p in h.arenas && h.first <= p && p + Pages(h.arenas[p]) <= h.first + |h.pool|
    requires forall q :: q in h.arenas && q != p && h.arenas[q].Small? && h.arenas[q].k < DESC_CNT ==>
              h.arenas[q].freeCnt < PerArena(h.arenas[q].k)
    ensures Busy(DropArena(h, p, k, rest))
  {
  }

  lemma FreeBigBusy(h: Heap, b: nat)
    requires Busy(h) && PageNo(b) in h.arenas && h.first <= PageNo(b)
    requires PageNo(b) + Pages(h.arenas[PageNo(b)]) <= h.first + |h.pool|
    ensures Busy(FreeBig(h, b))
  {
  }
}
