/** The kernel's paging code, updating its tables in place, refines the step functions. */
module PagingKernel {
  import opened Prelude
  import opened PagingState
  import opened PagingProofs
  import opened Clock
  import opened PagingRun
  import opened PagingExit
  import opened PagingTheorem
  import opened PoolLayout

  /** The bytes of `m` consecutive sectors. */
  function Sectors(block: seq<Sector>, a: nat, m: nat): (r: seq<Byte>)
    requires a + m <= |block|
    ensures |r| == m * SECTOR_SIZE
  {
    if m == 0 then [] else Sectors(block, a, m - 1) + block[a + m - 1]
  }

  /** The page kept in slot `s` of the swap block: sectors 8s to 8s + 7. */
  function SlotImage(block: seq<Sector>, s: nat): Page
    requires 8 * s + 8 <= |block|
  {
    Sectors(block, 8 * s, 8)
  }

  function SlotImages(block: seq<Sector>, n: nat): (r: seq<Page>)
    requires 8 * n <= |block|
    ensures |r| == n && forall s :: 0 <= s < n ==> r[s] == SlotImage(block, s)
  {
    seq(n, s requires 0 <= s < n => SlotImage(block, s))
  }

  method FindSpinfo(spt: seq<SpInfo>, u: nat) returns (r: Option<nat>)
    ensures r == FindUpage(spt, u)
  {
    var j := 0;
    while j < |spt|
      invariant 0 <= j <= |spt|
      invariant forall i :: 0 <= i < j ==> spt[i].upage != u
    {
      if spt[j].upage == u {
        return Some(j);
      }
      j := j + 1;
    }
    r := None;
  }

  method FindSpinfoByKpage(spt: seq<SpInfo>, k: nat) returns (r: Option<nat>)
    ensures r == FindKpage(spt, k)
  {
    var j := 0;
    while j < |spt|
      invariant 0 <= j <= |spt|
      invariant forall i :: 0 <= i < j ==> spt[i].kpage != Some(k)
    {
      if spt[j].kpage == Some(k) {
        return Some(j);
      }
      j := j + 1;
    }
    r := None;
  }

  /** Sectors that hold consecutive pieces of a page hold a prefix of it. */
  lemma {:induction false} SectorsHold(block: seq<Sector>, a: nat, m: nat, page: Page)
    requires a + m <= |block| && m <= 8
    requires forall x :: 0 <= x < m ==> block[a + x] == page[x * SECTOR_SIZE..(x + 1) * SECTOR_SIZE]
    ensures Sectors(block, a, m) == page[..m * SECTOR_SIZE]
  {
    if m > 0 {
      SectorsHold(block, a, m - 1, page);
      assert block[a + (m - 1)] == page[(m - 1) * SECTOR_SIZE..m * SECTOR_SIZE];
    }
  }

  lemma {:induction false} SectorsSame(block: seq<Sector>, block': seq<Sector>, a: nat, m: nat)
    requires a + m <= |block| && a + m <= |block'|
    requires forall x :: a <= x < a + m ==> block'[x] == block[x]
    ensures Sectors(block', a, m) == Sectors(block, a, m)
  {
    if m > 0 { SectorsSame(block, block', a, m - 1); }
  }

  class Kernel {
    const files: map<nat, seq<Byte>>
    const frametable: array<MetaFrame>
    const swaptable: array<MetaSwap>
    var clockHand: nat
    var usedMap: seq<bool>
    var userPool: seq<Page>
    var swapBlock: seq<Sector>
    var procs: map<Pid, Process>

    /** init_frametable and swaptable_init. The frame table is sized from RAM, which gives it the
        length of the user pool when the user page limit does not cut the pool short. */
    constructor (files: map<nat, seq<Byte>>, ramPages: nat, userPool: seq<Page>, swapBlock: seq<Sector>)
      requires ramPages >= MEGABYTE_PAGES && UserFrames(ramPages) == |userPool| > 0
      ensures Valid() && fresh(frametable) && fresh(swaptable)
      ensures State() == Boot(files, userPool, SlotImages(swapBlock, |swapBlock| / 8))
    {
      this.files := files;
      var userPages := (ramPages - MEGABYTE_PAGES) / 2;
      frametable := new MetaFrame[userPages - 1](_ => EMPTY_FRAME);
      swaptable := new MetaSwap[|swapBlock| / 8](_ => NO_META);
      clockHand := 0;
      usedMap := seq(|userPool|, _ => false);
      this.userPool := userPool;
      this.swapBlock := swapBlock;
      procs := map[];
    }

    ghost predicate Valid()
      reads this, frametable, swaptable
    {
      && 8 * swaptable.Length <= |swapBlock|
      && |usedMap| == |userPool| == frametable.Length
    }

    ghost function State(): VM
      reads this, frametable, swaptable
      requires Valid()
    {
      VM(files, frametable[..], clockHand, usedMap, userPool,
         swaptable[..], SlotImages(swapBlock, swaptable.Length), procs)
    }

    method GetMetaframeByPage(k: nat) returns (r: Option<nat>)
      ensures r == FindFrame(frametable[..], k)
    {
      var i := 0;
      while i < frametable.Length
        invariant 0 <= i <= frametable.Length
        invariant forall x :: 0 <= x < i ==> frametable[..][x].page != Some(k)
      {
        if frametable[i].page == Some(k) {
          assert frametable[..][i].page == Some(k);
          return Some(i);
        }
        i := i + 1;
      }
      r := None;
    }

    method NextEmptyMetaswapEntry() returns (r: Option<nat>)
      ensures r == FirstFreeSlot(swaptable[..])
    {
      var s := 0;
      while s < swaptable.Length
        invariant 0 <= s <= swaptable.Length
        invariant forall x :: 0 <= x < s ==> swaptable[..][x].filled
      {
        if !swaptable[s].filled {
          assert !swaptable[..][s].filled;
          return Some(s);
        }
        s := s + 1;
      }
      r := None;
    }

    /** Writes the page to a free slot, sector by sector; None stands for the kernel's panic. */
    method MoveIntoSwap(page: Page, instructions: LoadInstruction, dirty: bool) returns (r: Option<nat>)
      requires Valid()
      modifies this`swapBlock, swaptable
      ensures Valid()
      ensures r == FirstFreeSlot(old(swaptable[..]))
      ensures r.None? ==> State() == old(State())
      ensures r.Some? ==>
        State() == old(State()).(swap := old(swaptable[..])[r.value := MetaSwap(true, instructions, dirty)],
                                 slots := old(State()).slots[r.value := page])
    {
      r := NextEmptyMetaswapEntry();
      if r.None? {
        return;
      }
      var s := r.value;
      ghost var block0 := swapBlock;
      var i := 0;
      while i < 8
        invariant 0 <= i <= 8
        invariant |swapBlock| == |block0| && swaptable[..] == old(swaptable[..])
        invariant forall x :: 0 <= x < |block0| && !(8 * s <= x < 8 * s + i) ==> swapBlock[x] == block0[x]
        invariant forall x :: 0 <= x < i ==> swapBlock[8 * s + x] == page[x * SECTOR_SIZE..(x + 1) * SECTOR_SIZE]
      {
        swapBlock := swapBlock[8 * s + i := page[i * SECTOR_SIZE..(i + 1) * SECTOR_SIZE]];
        i := i + 1;
      }
      swaptable[s] := MetaSwap(true, instructions, dirty);
      SlotWritten(block0, swapBlock, swaptable.Length, s, page);
      assert swaptable[..] == old(swaptable[..])[s := MetaSwap(true, instructions, dirty)];
    }

    /** The page kept in the slot, read sector by sector. */
    method ReadFromSwap(index: nat) returns (page: Page)
      requires Valid() && index < swaptable.Length
      ensures page == State().slots[index]
    {
      var buffer: seq<Byte> := [];
      var i := 0;
      while i < 8
        invariant 0 <= i <= 8
        invariant buffer == Sectors(swapBlock, 8 * index, i)
      {
        buffer := buffer + swapBlock[8 * index + i];
        i := i + 1;
      }
      page := buffer;
    }

    /** Frees the slot; the saved instruction is overwritten before the caller sees the entry. */
    method FreeMetaswapEntry(index: nat) returns (freed: MetaSwap)
      requires Valid() && index < swaptable.Length
      modifies swaptable
      ensures Valid()
      ensures freed == MetaSwap(false, USELESS, old(swaptable[index]).dirty)
      ensures State() == old(State()).(swap := old(swaptable[..])[index := freed])
    {
      swaptable[index] := swaptable[index].(filled := false, instructions := USELESS);
      freed := swaptable[index];
      assert swaptable[..] == old(swaptable[..])[index := freed];
    }

    /** palloc_get_page (PAL_USER | PAL_ZERO); None stands for the null pointer. */
    method PallocGetPage() returns (r: Option<nat>)
      requires Valid()
      modifies this`usedMap, this`userPool
      ensures Valid()
      ensures r == FirstFreePage(old(usedMap))
      ensures r.None? ==> State() == old(State())
      ensures r.Some? ==> State() == old(State()).(used := old(usedMap)[r.value := true],
                                                   mem := old(userPool)[r.value := ZERO_PAGE])
    {
      var k := 0;
      while k < |usedMap|
        invariant 0 <= k <= |usedMap|
        invariant forall x :: 0 <= x < k ==> usedMap[x]
      {
        if !usedMap[k] {
          usedMap := usedMap[k := true];
          userPool := userPool[k := ZERO_PAGE];
          return Some(k);
        }
        k := k + 1;
      }
      r := None;
    }

    method PallocFreePage(k: nat)
      requires Valid() && k < |usedMap|
      modifies this`usedMap, this`userPool
      ensures Valid()
      ensures State() == old(State()).(used := old(usedMap)[k := false], mem := old(userPool)[k := DEAD_PAGE])
    {
      userPool := userPool[k := DEAD_PAGE];
      usedMap := usedMap[k := false];
    }

    method FreeFrame(k: nat)
      requires Valid() && FindFrame(frametable[..], k).Some?
      modifies frametable
      ensures Valid()
      ensures var frames := old(frametable[..]);
              State() == old(State()).(frames := frames[FindFrame(frames, k).value := EMPTY_FRAME])
    {
      var i := GetMetaframeByPage(k);
      frametable[i.value] := EMPTY_FRAME;
      assert frametable[..] == old(frametable[..])[i.value := EMPTY_FRAME];
    }

    /** Reads and clears the accessed bit of the page in frame `i`. */
    method TestAndClear(i: nat) returns (accessed: bool)
      requires Valid() && FrameMapped(State(), i)
      requires frametable[i].filled && usedMap[frametable[i].page.value]
      modifies this`procs
      ensures Valid() && State() == ClearAccessed(old(State()), i)
      ensures accessed == Accessed(old(State()), i)
    {
      ghost var vm := State();
      ClearedExplicitly(vm, i);
      var owner := frametable[i].owner.value;
      var at := FindSpinfoByKpage(procs[owner].spt, frametable[i].page.value);
      var upage := procs[owner].spt[at.value].upage;
      var pd := procs[owner].pd;
      accessed := pd[upage].accessed;
      procs := procs[owner := procs[owner].(pd := pd[upage := pd[upage].(accessed := false)])];
    }

    /** One turn of evict_page's loop: advance the hand, read and clear the accessed bit. */
    method SweepStep(ghost vm: VM) returns (accessed: bool)
      requires Valid() && vm == State() && Shape(vm) && Inv(vm) && AllFilled(vm)
      modifies this`clockHand, this`procs
      ensures Valid() && clockHand == Pos(vm.hand, 1, |vm.frames|)
      ensures accessed == Accessed(vm, clockHand)
      ensures State() == SweepTo(vm, clockHand)
    {
      hide Inv;
      clockHand := clockHand + 1;
      if clockHand >= frametable.Length {
        clockHand := 0;
      }
      FrameFacts(vm, clockHand);
      HandIrrelevant(vm, clockHand, clockHand);
      accessed := TestAndClear(clockHand);
    }

    /** The loop of evict_page: stops at the clock's victim after at most one turn and a step. */
    method Sweep(ghost vm: VM)
      requires Valid() && vm == State() && Shape(vm) && Inv(vm) && AllFilled(vm)
      modifies this`clockHand, this`procs
      ensures Valid() && State() == Swept(vm, FirstClear(Bits(vm), vm.hand, 1))
    {
      hide Inv, AllFilled, Accessed, Shed, SweepTo, Swept, Bits, FirstClear;
      ghost var m, n := 0, |vm.frames|;
      var accessed := true;
      SweptNone(vm);
      while accessed
        invariant Valid() && m <= n + 1 && (accessed ==> m <= n)
        invariant State() == Swept(vm, m)
        invariant accessed ==> forall e :: 1 <= e <= m ==> Bits(vm)[Pos(vm.hand, e, n)]
        invariant !accessed ==> FirstClear(Bits(vm), vm.hand, 1) == m
        decreases n + 1 - m, accessed
      {
        ghost var before := State();
        SweptNext(vm, m);
        SweptBits(vm, m);
        SweepStops(Bits(vm), vm.hand, m);
        accessed := SweepStep(before);
        m := m + 1;
      }
    }

    /** evict_page after its loop: save the page if it must be saved, unmap it, free page and frame. */
    method EvictVictim(ghost vm: VM) returns (ok: bool)
      requires Valid() && vm == State() && FrameMapped(vm, clockHand)
      requires FindFrame(vm.frames, vm.frames[clockHand].page.value) == Some(clockHand)
      modifies this, frametable, swaptable
      ensures Valid() && clockHand == vm.hand
      ensures ok <==> EvictChange(vm, vm.hand).Some?
      ensures ok ==> InRange(vm, EvictChange(vm, vm.hand).value)
      ensures ok ==> State() == Apply(vm, EvictChange(vm, vm.hand).value)
    {
      assert frametable[clockHand] == vm.frames[clockHand];
      var owner, kpage := frametable[clockHand].owner.value, frametable[clockHand].page.value;
      var spt, pd := procs[owner].spt, procs[owner].pd;
      var at := FindSpinfoByKpage(spt, kpage);
      var sp := spt[at.value];
      var pte := pd[sp.upage];
      if sp.instructions == STACK || pte.dirty {
        var slot := MoveIntoSwap(userPool[kpage], sp.instructions, pte.dirty);
        if slot.None? {
          return false;
        }
        sp := sp.(swapIndex := slot.value, instructions := SWAP);
      }
      Unmap(owner, at.value, sp.(kpage := None), pte.(present := false), kpage);
      ok := true;
    }

    /** pagedir_clear_page, and the frame and the page given back. */
    method Unmap(owner: Pid, j: nat, sp: SpInfo, pte: Pte, kpage: nat)
      requires Valid() && owner in procs && j < |procs[owner].spt| && kpage < |usedMap|
      requires FindFrame(frametable[..], kpage).Some?
      modifies this`procs, this`usedMap, this`userPool, frametable
      ensures Valid()
      ensures var vm := old(State());
              State() == vm.(
                frames := vm.frames[FindFrame(vm.frames, kpage).value := EMPTY_FRAME],
                used := vm.used[kpage := false], mem := vm.mem[kpage := DEAD_PAGE],
                procs := vm.procs[owner := Process(vm.procs[owner].spt[j := sp], vm.procs[owner].pd[sp.upage := pte])])
    {
      procs := procs[owner := Process(procs[owner].spt[j := sp], procs[owner].pd[sp.upage := pte])];
      PallocFreePage(kpage);
      FreeFrame(kpage);
    }

    /** evict_page; None stands for the kernel's panic when swap is full. */
    method EvictPage(ghost vm: VM) returns (r: Option<nat>)
      requires Valid() && vm == State() && Shape(vm) && Inv(vm) && AllFilled(vm)
      modifies this, frametable, swaptable
      ensures Valid()
      ensures r.None? <==> PagingRun.EvictPage(vm).None?
      ensures r.Some? ==> PagingRun.EvictPage(vm) == Some(State()) && r == Some(State().hand)
    {
      hide Inv, AllFilled, Shed, Swept, Bits, FirstClear, Apply, EvictChange, FrameMapped;
      Sweep(vm);
      ghost var s := State();
      VictimFacts(vm);
      var ok := EvictVictim(s);
      r := if ok then Some(clockHand) else None;
    }

    /** next_empty_frame; None stands for the kernel's panic when swap is full. */
    method NextEmptyFrame(ghost vm: VM) returns (r: Option<nat>)
      requires Valid() && vm == State() && Shape(vm) && Inv(vm)
      modifies this, frametable, swaptable
      ensures Valid()
      ensures r.None? <==> ClaimFrame(vm).None?
      ensures r.Some? ==> ClaimFrame(vm) == Some((State(), r.value))
    {
      hide Inv, Shed, PagingRun.EvictPage;
      var i := 0;
      while i < frametable.Length
        invariant 0 <= i <= frametable.Length && Valid() && vm == State()
        invariant forall x :: 0 <= x < i ==> vm.frames[x].filled
      {
        if !frametable[i].filled {
          assert !vm.frames[i].filled;
          return Some(i);
        }
        i := i + 1;
      }
      r := EvictPage(vm);
    }

    /** The loading half of page_fault: fill pool page `k`, map it, restore the dirty bit. */
    method LoadInto(ghost vm: VM, p: Pid, j: nat, ghost i: nat, k: nat) returns (ok: bool)
      requires Valid() && Ref(vm, p, j) && Shape(vm) && i < |vm.frames| && k < |vm.mem|
      requires SwappedOk(vm, vm.procs[p].spt[j])
      requires State() == Assigned(vm, p, i, k)
      modifies this, swaptable
      ensures Valid()
      ensures ok <==> vm.procs[p].spt[j].instructions == FILE ==> FileBytesExist(files, vm.procs[p].spt[j])
      ensures ok ==> InRange(vm, InstallChange(vm, p, j, i, k))
      ensures ok ==> State() == Apply(vm, InstallChange(vm, p, j, i, k))
    {
      var sp := procs[p].spt[j];
      var dirty := false;
      if sp.instructions == FILE {
        if sp.fileOffset > INT_MAX || sp.bytesToRead > PGSIZE ||
           (sp.bytesToRead > 0 && (sp.file !in files || sp.fileOffset + sp.bytesToRead > |files[sp.file]|)) {
          return false;
        }
        var bytes := if sp.bytesToRead == 0 then []
                     else files[sp.file][sp.fileOffset..sp.fileOffset + sp.bytesToRead];
        userPool := userPool[k := bytes + Fill(PGSIZE - sp.bytesToRead, 0)];
        assert userPool[k] == FileImage(files, sp);
      } else if sp.instructions == SWAP {
        var page := ReadFromSwap(sp.swapIndex);
        userPool := userPool[k := page];
        var freed := FreeMetaswapEntry(sp.swapIndex);
        sp := sp.(instructions := freed.instructions, swapIndex := -1);
        dirty := freed.dirty;
      }
      var pte := Pte(k, true, sp.writable, dirty, false);
      procs := procs[p := Process(procs[p].spt[j := sp.(kpage := Some(k))], procs[p].pd[sp.upage := pte])];
      ok := true;
      assert State().slots == Apply(vm, InstallChange(vm, p, j, i, k)).slots;
    }

    /** page_fault from the point where it claims a frame, run by process `p`: the page is not in memory,
        or it is and the process stored to it without leave. A fault that is turned down keeps the frame
        and the page claimed for it. */
    method PageFault(ghost vm: VM, p: Pid, addr: nat, esp: nat, write: bool) returns (r: FaultEnd)
      requires Valid() && vm == State() && Shape(vm) && Inv(vm) && Faults(vm, p, addr / PGSIZE, write)
      modifies this, frametable, swaptable
      ensures Valid()
      ensures match MakePresent(vm, p, addr, esp, write)
              case Running(vm') => r == Resolved && State() == vm'
              case Panicked => r == Panic
              case Killed =>
                && r == Rejected && ClaimFrame(vm).Some?
                && var (vm1, i) := ClaimFrame(vm).value;
                   && |vm1.used| == |vm1.mem| && FirstFreePage(vm1.used).Some?
                   && State() == Assigned(vm1, p, i, FirstFreePage(vm1.used).value)
    {
      hide Inv, Shed, ClaimFrame, Faults, MakePresent, Shape, Ref, SwappedOk, InstallChange, InRange, Apply;
      FaultFacts(vm, p, addr, esp, write);
      var claimed := NextEmptyFrame(vm);
      if claimed.None? {
        return Panic;
      }
      var i := claimed.value;
      ghost var vm1 := State();
      var page := PallocGetPage();
      var k := page.value;
      frametable[i] := MetaFrame(true, Some(k), Some(p));
      assert State() == Assigned(vm1, p, i, k);
      var at := FindSpinfo(procs[p].spt, addr / PGSIZE);
      var j := |procs[p].spt|;
      if at.Some? {
        j := at.value;
      } else if IsStackAccess(addr, esp) {
        procs := procs[p := procs[p].(spt := procs[p].spt + [StackEntry(addr / PGSIZE)])];
      } else {
        return Rejected;
      }
      ghost var vm2 := if at.Some? then vm1 else AddEntry(vm1, p, StackEntry(addr / PGSIZE));
      if write && !procs[p].spt[j].writable {
        return Rejected;
      }
      ResolveFacts(vm1, vm2, p, addr, esp, write, i, j);
      var ok := LoadInto(vm2, p, j, i, k);
      r := if ok then Resolved else Panic;
    }

    /** process_exit's loop over the supplemental table. */
    method ReleaseFrames(spt: seq<SpInfo>)
      requires Valid() && TableInjective(spt)
      requires forall j :: 0 <= j < |spt| && spt[j].kpage.Some? ==> OneFrame(frametable[..], spt[j].kpage.value)
      modifies frametable
      ensures Valid() && State() == old(State()).(frames := ExitFrames(old(frametable[..]), spt))
    {
      ghost var frames := frametable[..];
      NoneReleased(frames);
      var j := 0;
      while j < |spt|
        invariant 0 <= j <= |spt| && Valid()
        invariant frametable[..] == ExitFrames(frames, spt[..j])
      {
        ReleaseOne(frames, spt, j);
        if spt[j].kpage.Some? {
          FreeFrame(spt[j].kpage.value);
        }
        j := j + 1;
      }
      assert spt[..j] == spt;
    }

    /** pagedir_destroy: frees the pool page of every present entry. */
    method ReleasePages(pd: map<nat, Pte>)
      requires Valid() && forall u :: u in pd && pd[u].present ==> pd[u].kpage < |usedMap|
      modifies this`usedMap, this`userPool
      ensures Valid()
      ensures forall k :: 0 <= k < |usedMap| ==> usedMap[k] == (old(usedMap)[k] && !Mapped(pd, pd.Keys, k))
      ensures forall k :: 0 <= k < |usedMap| ==>
        userPool[k] == if Mapped(pd, pd.Keys, k) then DEAD_PAGE else old(userPool)[k]
    {
      var rest := pd.Keys;
      while rest != {}
        invariant Valid() && rest <= pd.Keys
        invariant forall k :: 0 <= k < |usedMap| ==> usedMap[k] == (old(usedMap)[k] && !Mapped(pd, pd.Keys - rest, k))
        invariant forall k :: 0 <= k < |usedMap| ==>
          userPool[k] == if Mapped(pd, pd.Keys - rest, k) then DEAD_PAGE else old(userPool)[k]
      {
        var u :| u in rest;
        assert pd.Keys - (rest - {u}) == (pd.Keys - rest) + {u};
        MappedMore(pd, pd.Keys - rest, u);
        if pd[u].present {
          PallocFreePage(pd[u].kpage);
        }
        rest := rest - {u};
      }
      assert pd.Keys - {} == pd.Keys;
    }

    /** thread_exit's loop over the supplemental table. */
    method ReleaseSlots(spt: seq<SpInfo>)
      requires Valid()
      requires forall j :: 0 <= j < |spt| && spt[j].instructions == SWAP ==> 0 <= spt[j].swapIndex < swaptable.Length
      modifies swaptable
      ensures Valid() && State() == old(State()).(swap := ExitSwap(old(swaptable[..]), spt))
    {
      ghost var swap := swaptable[..];
      assert ExitSwap(swap, spt[..0]) == swap;
      var j := 0;
      while j < |spt|
        invariant 0 <= j <= |spt| && Valid()
        invariant swaptable[..] == ExitSwap(swap, spt[..j])
      {
        ReleaseOneSlot(swap, spt, j);
        if spt[j].instructions == SWAP {
          var _ := FreeMetaswapEntry(spt[j].swapIndex);
        }
        j := j + 1;
      }
      assert spt[..j] == spt;
    }

    /** process_exit and the release loop of thread_exit, run by process `p`. */
    method ProcessExit(ghost vm: VM, p: Pid)
      requires Valid() && vm == State() && Inv(vm) && p in vm.procs
      modifies this, frametable, swaptable
      ensures Valid() && State() == Exit(vm, p)
    {
      hide Inv, Mapped, OneFrame, TableInjective, FindKpage;
      ExitFacts(vm, p);
      ReleaseFrames(procs[p].spt);
      ReleasePages(procs[p].pd);
      ReleaseSlots(procs[p].spt);
      procs := procs - {p};
    }
  }

  /** Some frame, and only one, holds pool page `k`. */
  ghost predicate OneFrame(frames: seq<MetaFrame>, k: nat) {
    && FindFrame(frames, k).Some?
    && forall i :: 0 <= i < |frames| && frames[i].page == Some(k) ==> i == FindFrame(frames, k).value
  }

  ghost predicate Mapped(pd: map<nat, Pte>, us: set<nat>, k: nat) {
    exists u :: u in us && u in pd && pd[u].present && pd[u].kpage == k
  }

  lemma MappedMore(pd: map<nat, Pte>, us: set<nat>, u: nat)
    requires u in pd
    ensures forall k :: Mapped(pd, us + {u}, k) <==> Mapped(pd, us, k) || (pd[u].present && pd[u].kpage == k)
  {
    forall k ensures Mapped(pd, us + {u}, k) <==> Mapped(pd, us, k) || (pd[u].present && pd[u].kpage == k) {
      if Mapped(pd, us, k) {
        var w :| w in us && w in pd && pd[w].present && pd[w].kpage == k;
        assert w in us + {u};
      } else if pd[u].present && pd[u].kpage == k {
        assert u in us + {u};
      }
    }
  }

  lemma NoneReleased(frames: seq<MetaFrame>)
    ensures ExitFrames(frames, []) == frames
  {
  }

  lemma FindKpagePrefix(spt: seq<SpInfo>, j: nat, k: nat)
    requires j < |spt|
    ensures FindKpage(spt[..j + 1], k).Some? <==> FindKpage(spt[..j], k).Some? || spt[j].kpage == Some(k)
  {
    var a, b := FindKpage(spt[..j], k), FindKpage(spt[..j + 1], k);
    assert a.Some? ==> spt[..j + 1][a.value].kpage == Some(k);
    assert b.Some? && b.value < j ==> spt[..j][b.value].kpage == Some(k);
    assert spt[..j + 1][j] == spt[j];
  }

  lemma ReleaseOne(frames: seq<MetaFrame>, spt: seq<SpInfo>, j: nat)
    requires j < |spt| && TableInjective(spt)
    requires spt[j].kpage.Some? ==> OneFrame(frames, spt[j].kpage.value)
    ensures var cur := ExitFrames(frames, spt[..j]);
            var next := ExitFrames(frames, spt[..j + 1]);
            if spt[j].kpage.None? then next == cur
            else && FindFrame(cur, spt[j].kpage.value).Some?
                 && next == cur[FindFrame(cur, spt[j].kpage.value).value := EMPTY_FRAME]
  {
    var cur, next := ExitFrames(frames, spt[..j]), ExitFrames(frames, spt[..j + 1]);
    forall i | 0 <= i < |frames| && frames[i].page.Some?
      ensures HeldFrame(frames[i], spt[..j + 1]) <==>
              HeldFrame(frames[i], spt[..j]) || spt[j].kpage == frames[i].page
    {
      FindKpagePrefix(spt, j, frames[i].page.value);
    }
    if spt[j].kpage.Some? {
      var k := spt[j].kpage.value;
      var f := FindFrame(frames, k).value;
      assert FindKpage(spt[..j], k).None?;
      assert cur[f].page == Some(k);
      assert FindFrame(cur, k) == Some(f);
      assert next == cur[f := EMPTY_FRAME];
    }
  }

  lemma FindSlotPrefix(spt: seq<SpInfo>, j: nat, s: nat)
    requires j < |spt|
    ensures FindSlot(spt[..j + 1], s).Some? <==>
            FindSlot(spt[..j], s).Some? || (spt[j].instructions == SWAP && spt[j].swapIndex == s)
  {
    var a, b := FindSlot(spt[..j], s), FindSlot(spt[..j + 1], s);
    assert a.Some? ==> spt[..j + 1][a.value] == spt[..j][a.value];
    assert b.Some? && b.value < j ==> spt[..j][b.value] == spt[..j + 1][b.value];
    assert spt[..j + 1][j] == spt[j];
  }

  lemma ReleaseOneSlot(swap: seq<MetaSwap>, spt: seq<SpInfo>, j: nat)
    requires j < |spt| && (spt[j].instructions == SWAP ==> 0 <= spt[j].swapIndex < |swap|)
    ensures var cur := ExitSwap(swap, spt[..j]);
            var next := ExitSwap(swap, spt[..j + 1]);
            if spt[j].instructions != SWAP then next == cur
            else next == cur[spt[j].swapIndex := MetaSwap(false, USELESS, cur[spt[j].swapIndex].dirty)]
  {
    forall s | 0 <= s < |swap|
      ensures FindSlot(spt[..j + 1], s).Some? <==>
              FindSlot(spt[..j], s).Some? || (spt[j].instructions == SWAP && spt[j].swapIndex == s)
    {
      FindSlotPrefix(spt, j, s);
    }
  }

  lemma ExitFacts(vm: VM, p: Pid)
    requires Inv(vm) && p in vm.procs
    ensures var spt, pd := vm.procs[p].spt, vm.procs[p].pd;
            && TableInjective(spt)
            && (forall j :: 0 <= j < |spt| && spt[j].kpage.Some? ==> OneFrame(vm.frames, spt[j].kpage.value))
            && (forall j :: 0 <= j < |spt| && spt[j].instructions == SWAP ==> 0 <= spt[j].swapIndex < |vm.swap|)
            && (forall u :: u in pd && pd[u].present ==> pd[u].kpage < |vm.used|)
            && (forall k :: 0 <= k < |vm.used| ==> (Mapped(pd, pd.Keys, k) <==> FindKpage(spt, k).Some?))
  {
    var spt, pd := vm.procs[p].spt, vm.procs[p].pd;
    assert TableInjective(spt) && DirectoryOk(vm.procs[p]);
    forall j | 0 <= j < |spt|
      ensures ResidentOk(vm, p, vm.procs[p], spt[j]) && SwappedOk(vm, spt[j])
    {
      assert Ref(vm, p, j);
    }
    forall k | 0 <= k < |vm.used| ensures Mapped(pd, pd.Keys, k) <==> FindKpage(spt, k).Some? {
      var at := FindKpage(spt, k);
      if at.Some? {
        assert spt[at.value].upage in pd.Keys;
      }
    }
  }

  datatype FaultEnd = Resolved | Panic | Rejected

  /** The processor faults on page `u`: it is not in memory, or it is and may not be written. */
  predicate Faults(vm: VM, p: Pid, u: nat, write: bool) {
    p in vm.procs && (Present(vm, p, u) ==> write && !vm.procs[p].pd[u].writable)
  }

  lemma FaultFacts(vm: VM, p: Pid, addr: nat, esp: nat, write: bool)
    requires Inv(vm) && Faults(vm, p, addr / PGSIZE, write)
    ensures p in vm.procs && (ClaimFrame(vm).None? ==> MakePresent(vm, p, addr, esp, write) == Panicked)
    ensures ClaimFrame(vm).Some? ==>
      var (vm1, i) := ClaimFrame(vm).value;
      && FirstFreePage(vm1.used).Some? && |vm1.used| == |vm1.mem| && p in vm1.procs
      && if Refused(vm1, p, addr, esp, write) then MakePresent(vm, p, addr, esp, write) == Killed
         else && Absent(vm1, p, addr / PGSIZE) && Inv(vm1) && Shape(vm1)
              && MakePresent(vm, p, addr, esp, write) == Resolve(vm1, p, addr, esp, write, i)
  {
    hide EvictPage, ClaimFrame;
    var u := addr / PGSIZE;
    if ClaimFrame(vm).Some? {
      var (vm1, i) := ClaimFrame(vm).value;
      FreePageExists(vm1, i);
      SameFind(vm, vm1, p, u);
    }
  }

  /** What page_fault turns down: no such page and not the stack, or a store to a read-only page. */
  predicate Refused(vm: VM, p: Pid, addr: nat, esp: nat, write: bool)
    requires p in vm.procs
  {
    match FindUpage(vm.procs[p].spt, addr / PGSIZE)
    case None => !IsStackAccess(addr, esp)
    case Some(j) => write && !vm.procs[p].spt[j].writable
  }

  lemma ResolveFacts(vm: VM, vm': VM, p: Pid, addr: nat, esp: nat, write: bool, i: nat, j: nat)
    requires Inv(vm) && Absent(vm, p, addr / PGSIZE) && i < |vm.frames| && !vm.frames[i].filled
    requires FirstFreePage(vm.used).Some?
    requires var at := FindUpage(vm.procs[p].spt, addr / PGSIZE);
             if at.Some? then j == at.value && vm' == vm
             else && j == |vm.procs[p].spt| && IsStackAccess(addr, esp)
                  && vm' == AddEntry(vm, p, StackEntry(addr / PGSIZE))
    ensures Shape(vm') && Ref(vm', p, j) && SwappedOk(vm', vm'.procs[p].spt[j])
    ensures var sp, k := vm'.procs[p].spt[j], FirstFreePage(vm.used).value;
            && (write && !sp.writable ==> Resolve(vm, p, addr, esp, write, i) == Killed)
            && (!(write && !sp.writable) ==>
                  if sp.instructions == FILE && !FileBytesExist(vm.files, sp)
                  then Resolve(vm, p, addr, esp, write, i) == Panicked
                  else && InRange(vm', InstallChange(vm', p, j, i, k))
                       && Resolve(vm, p, addr, esp, write, i) == Running(Apply(vm', InstallChange(vm', p, j, i, k))))
  {
    if FindUpage(vm.procs[p].spt, addr / PGSIZE).None? {
      AddKeeps(vm, p, StackEntry(addr / PGSIZE));
    }
    InstallKeeps(vm', p, j, i, FirstFreePage(vm.used).value);
  }

  /** The state assign_page leaves: frame `i` and a zeroed pool page `k` taken for `p`. */
  ghost function Assigned(vm: VM, p: Pid, i: nat, k: nat): VM
    requires i < |vm.frames| && k < |vm.used| && k < |vm.mem|
  {
    vm.(frames := vm.frames[i := MetaFrame(true, Some(k), Some(p))],
        used := vm.used[k := true], mem := vm.mem[k := ZERO_PAGE])
  }

  /** A fault that was turned down ends in exit, which walks only the supplemental table: it gives back
      all but the frame and the page claimed for the fault. They stay taken for a process that is gone,
      which no run of resolved faults and exits leads to, and the clock hand finds no page there. */
  lemma RejectedFrameLeaks(vm: VM, p: Pid, i: nat, k: nat)
    requires Inv(vm) && p in vm.procs && i < |vm.frames| && !vm.frames[i].filled
    requires k < |vm.used| == |vm.mem| && !vm.used[k]
    ensures Exit(Assigned(vm, p, i, k), p) == Assigned(Exit(vm, p), p, i, k)
    ensures Inv(Exit(vm, p)) && !Exit(vm, p).frames[i].filled && !Exit(vm, p).used[k]
    ensures var after := Exit(Assigned(vm, p, i, k), p);
            Shape(after) && !FramesOk(after) && !FrameMapped(after, i)
  {
    ExitKeeps(vm, p);
    var spt, got := vm.procs[p].spt, Exit(Assigned(vm, p, i, k), p);
    forall j | 0 <= j < |spt| ensures spt[j].kpage != Some(k) {
      assert Ref(vm, p, j) && ResidentOk(vm, p, vm.procs[p], spt[j]);
    }
    var want := Assigned(Exit(vm, p), p, i, k);
    assert got.frames == want.frames && got.used == want.used && got.mem == want.mem;
    assert got.frames[i].filled && p !in got.procs;
  }

  lemma VictimFacts(vm: VM)
    requires Inv(vm) && AllFilled(vm)
    ensures var s := Swept(vm, FirstClear(Bits(vm), vm.hand, 1));
            && FrameMapped(s, s.hand)
            && FindFrame(s.frames, s.frames[s.hand].page.value) == Some(s.hand)
            && (if EvictChange(s, s.hand).None? then PagingRun.EvictPage(vm).None?
                else && InRange(s, EvictChange(s, s.hand).value)
                     && PagingRun.EvictPage(vm) == Some(Apply(s, EvictChange(s, s.hand).value))
                     && Apply(s, EvictChange(s, s.hand).value).hand == s.hand)
  {
    var s := Swept(vm, FirstClear(Bits(vm), vm.hand, 1));
    FilledMapped(s, s.hand);
    UniqueFrame(s, s.hand);
    if EvictChange(s, s.hand).Some? { EvictFits(s, s.hand); }
  }

  lemma UniqueFrame(vm: VM, i: nat)
    requires Inv(vm) && i < |vm.frames| && vm.frames[i].filled
    ensures vm.frames[i].page.Some? && FindFrame(vm.frames, vm.frames[i].page.value) == Some(i)
  {
  }

  lemma SweptNext(vm: VM, m: nat)
    requires Shape(vm) && Inv(vm) && AllFilled(vm) && m <= |vm.frames|
    ensures Shape(Swept(vm, m)) && AllFilled(Swept(vm, m))
    ensures Pos(Swept(vm, m).hand, 1, |vm.frames|) == Pos(vm.hand, m + 1, |vm.frames|)
    ensures Swept(vm, m + 1) == SweepTo(Swept(vm, m), Pos(vm.hand, m + 1, |vm.frames|))
  {
    hide Inv, Shed, SweepTo, FrameMapped;
    InvShape(Swept(vm, m));
    assert Swept(vm, m).frames == vm.frames;
  }

  lemma SweptNone(vm: VM)
    requires Inv(vm) && AllFilled(vm)
    ensures Swept(vm, 0) == vm
  {
    hide Inv, Shed;
  }

  lemma InvShape(vm: VM)
    requires Inv(vm)
    ensures Shape(vm)
  {
  }

  lemma FrameFacts(vm: VM, i: nat)
    requires Inv(vm) && i < |vm.frames| && vm.frames[i].filled
    ensures FrameMapped(vm, i) && FrameMapped(vm.(hand := i), i) && vm.used[vm.frames[i].page.value]
    ensures SweepTo(vm, i) == ClearAccessed(vm.(hand := i), i)
  {
    FilledMapped(vm, i);
  }

  lemma ClearedExplicitly(vm: VM, i: nat)
    requires FrameMapped(vm, i) && vm.frames[i].filled && vm.used[vm.frames[i].page.value]
    ensures var p, u := FrameOwner(vm, i), FrameEntry(vm, i).upage;
            var proc := vm.procs[p];
            ClearAccessed(vm, i) ==
            vm.(procs := vm.procs[p := proc.(pd := proc.pd[u := proc.pd[u].(accessed := false)])])
  {
    var r, p, k := ClearAccessed(vm, i), FrameOwner(vm, i), vm.frames[i].page.value;
    assert r.procs[p].spt == vm.procs[p].spt;
    assert r.frames == vm.frames && r.used == vm.used && r.mem == vm.mem;
  }

  lemma SlotWritten(block: seq<Sector>, block': seq<Sector>, n: nat, s: nat, page: Page)
    requires s < n && 8 * n <= |block| == |block'|
    requires forall x :: 0 <= x < |block| && !(8 * s <= x < 8 * s + 8) ==> block'[x] == block[x]
    requires forall x :: 0 <= x < 8 ==> block'[8 * s + x] == page[x * SECTOR_SIZE..(x + 1) * SECTOR_SIZE]
    ensures SlotImages(block', n) == SlotImages(block, n)[s := page]
  {
    forall t | 0 <= t < n ensures SlotImages(block', n)[t] == SlotImages(block, n)[s := page][t] {
      if t == s {
        SectorsHold(block', 8 * s, 8, page);
      } else {
        SectorsSame(block, block', 8 * t, 8);
      }
    }
  }
}
