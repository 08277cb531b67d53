/** What a process gives back when it exits. */
module PagingExit {
  import opened Prelude
  import opened PagingState

  function FindSlot(spt: seq<SpInfo>, s: nat): (r: Option<nat>)
    ensures r.Some? ==> r.value < |spt| && spt[r.value].instructions == SWAP && spt[r.value].swapIndex == s
    ensures r.None? ==> forall j :: 0 <= j < |spt| ==> spt[j].instructions != SWAP || spt[j].swapIndex != s
  {
    FirstFrom(spt, (sp: SpInfo) => sp.instructions == SWAP && sp.swapIndex == s, 0)
  }

  predicate HeldFrame(f: MetaFrame, spt: seq<SpInfo>) {
    f.page.Some? && FindKpage(spt, f.page.value).Some?
  }

  /** process_exit's free_frame for every resident page of the table. */
  function ExitFrames(frames: seq<MetaFrame>, spt: seq<SpInfo>): (r: seq<MetaFrame>)
    ensures |r| == |frames|
    ensures forall i :: 0 <= i < |r| ==> r[i] == if HeldFrame(frames[i], spt) then EMPTY_FRAME else frames[i]
  {
    seq(|frames|, i requires 0 <= i < |frames| => if HeldFrame(frames[i], spt) then EMPTY_FRAME else frames[i])
  }

  /** pagedir_destroy's palloc_free_page for every resident page. */
  function ExitUsed(used: seq<bool>, spt: seq<SpInfo>): (r: seq<bool>)
    ensures |r| == |used|
    ensures forall k :: 0 <= k < |r| ==> r[k] == (used[k] && FindKpage(spt, k).None?)
  {
    seq(|used|, k requires 0 <= k < |used| => used[k] && FindKpage(spt, k).None?)
  }

  function ExitMem(mem: seq<Page>, spt: seq<SpInfo>): (r: seq<Page>)
    ensures |r| == |mem|
    ensures forall k :: 0 <= k < |r| ==> r[k] == if FindKpage(spt, k).Some? then DEAD_PAGE else mem[k]
  {
    seq(|mem|, k requires 0 <= k < |mem| => if FindKpage(spt, k).Some? then DEAD_PAGE else mem[k])
  }

  /** thread_exit's free_metaswap_entry for every SWAP page. */
  function ExitSwap(swap: seq<MetaSwap>, spt: seq<SpInfo>): (r: seq<MetaSwap>)
    ensures |r| == |swap|
    ensures forall s :: 0 <= s < |r| ==>
      r[s] == if FindSlot(spt, s).Some? then MetaSwap(false, USELESS, swap[s].dirty) else swap[s]
  {
    seq(|swap|, s requires 0 <= s < |swap| =>
      if FindSlot(spt, s).Some? then MetaSwap(false, USELESS, swap[s].dirty) else swap[s])
  }

  function Exit(vm: VM, p: Pid): VM
    requires p in vm.procs
  {
    var spt := vm.procs[p].spt;
    VM(vm.files, ExitFrames(vm.frames, spt), vm.hand,
       ExitUsed(vm.used, spt), ExitMem(vm.mem, spt),
       ExitSwap(vm.swap, spt), vm.slots, vm.procs - {p})
  }

  /** A frame's page is in p's table exactly when p owns the frame. */
  lemma HeldIsOwned(vm: VM, p: Pid, i: nat)
    requires Shape(vm) && FramesOk(vm) && TablesOk(vm) && p in vm.procs
    requires i < |vm.frames| && vm.frames[i].filled
    ensures HeldFrame(vm.frames[i], vm.procs[p].spt) <==> vm.frames[i].owner == Some(p)
  {
    var at := FindKpage(vm.procs[p].spt, vm.frames[i].page.value);
    if at.Some? {
      assert ResidentOk(vm, p, vm.procs[p], vm.procs[p].spt[at.value]);
    }
  }

  lemma SlotIsOwned(vm: VM, p: Pid, s: nat)
    requires p in vm.procs
    ensures FindSlot(vm.procs[p].spt, s).Some? <==> exists j :: OwnsSlot(vm, p, j, s)
  {
    var at := FindSlot(vm.procs[p].spt, s);
    if at.Some? {
      assert OwnsSlot(vm, p, at.value, s);
    } else {
      forall j ensures !OwnsSlot(vm, p, j, s) {}
    }
  }

  /** Exit frees the frames the process owns and the slots its SWAP pages use, and nothing else. */
  lemma ExitFreesItsOwn(vm: VM, p: Pid)
    requires Inv(vm) && p in vm.procs
    ensures forall i :: 0 <= i < |vm.frames| ==>
      Exit(vm, p).frames[i] == if vm.frames[i].owner == Some(p) then EMPTY_FRAME else vm.frames[i]
    ensures forall s :: 0 <= s < |vm.swap| ==>
      (Exit(vm, p).swap[s].filled <==> vm.swap[s].filled && !exists j :: OwnsSlot(vm, p, j, s))
  {
    forall i | 0 <= i < |vm.frames|
      ensures Exit(vm, p).frames[i] == if vm.frames[i].owner == Some(p) then EMPTY_FRAME else vm.frames[i]
    {
      if vm.frames[i].filled { HeldIsOwned(vm, p, i); }
    }
    forall s | 0 <= s < |vm.swap|
      ensures Exit(vm, p).swap[s].filled <==> vm.swap[s].filled && !exists j :: OwnsSlot(vm, p, j, s)
    {
      SlotIsOwned(vm, p, s);
    }
  }

  lemma ExitFramesOk(vm: VM, p: Pid)
    requires Shape(vm) && FramesOk(vm) && TablesOk(vm) && PoolOk(vm) && p in vm.procs
    ensures Shape(Exit(vm, p)) && FramesOk(Exit(vm, p)) && PoolOk(Exit(vm, p))
  {
    var vm', spt := Exit(vm, p), vm.procs[p].spt;
    forall i | 0 <= i < |vm.frames| && vm.frames[i].filled
      ensures HeldFrame(vm.frames[i], spt) <==> vm.frames[i].owner == Some(p)
    {
      HeldIsOwned(vm, p, i);
    }
    forall k | 0 <= k < |vm'.used| && vm'.used[k] ensures FindFrame(vm'.frames, k).Some? {
      var i := FindFrame(vm.frames, k).value;
      assert vm'.frames[i] == vm.frames[i];
    }
  }

  /** The frame of another process's resident page, and its bytes, are untouched. */
  lemma ExitFrameStays(vm: VM, p: Pid, q: Pid, j: int)
    requires Shape(vm) && FramesOk(vm) && TablesOk(vm) && p in vm.procs
    requires Ref(vm, q, j) && q != p && vm.procs[q].spt[j].kpage.Some?
    ensures var k := vm.procs[q].spt[j].kpage.value;
            && k < |vm.mem| && Exit(vm, p).mem[k] == vm.mem[k]
            && FindFrame(vm.frames, k).Some? && FindFrame(Exit(vm, p).frames, k) == FindFrame(vm.frames, k)
            && var i := FindFrame(vm.frames, k).value; Exit(vm, p).frames[i] == vm.frames[i]
  {
    var vm', sp := Exit(vm, p), vm.procs[q].spt[j];
    assert ResidentOk(vm, q, vm.procs[q], sp);
    var k := sp.kpage.value;
    var i := FindFrame(vm.frames, k).value;
    HeldIsOwned(vm, p, i);
    assert vm'.frames[i] == vm.frames[i];
    assert FindFrame(vm'.frames, k) == Some(i);
  }

  lemma ExitResident(vm: VM, p: Pid, q: Pid, j: int)
    requires Shape(vm) && FramesOk(vm) && TablesOk(vm) && p in vm.procs
    requires Ref(vm, q, j) && q != p
    ensures Shape(Exit(vm, p)) && Ref(Exit(vm, p), q, j)
    ensures ResidentOk(Exit(vm, p), q, vm.procs[q], vm.procs[q].spt[j])
    ensures View(Exit(vm, p), q, j) == View(vm, q, j)
  {
    var vm', sp := Exit(vm, p), vm.procs[q].spt[j];
    assert ResidentOk(vm, q, vm.procs[q], sp);
    assert Home(vm', sp) == Home(vm, sp);
    hide HeldFrame, FramesOk, TablesOk;
    if sp.kpage.Some? { ExitFrameStays(vm, p, q, j); }
  }

  lemma ExitSwapped(vm: VM, p: Pid, q: Pid, j: int)
    requires Shape(vm) && TablesOk(vm) && SlotsOk(vm) && p in vm.procs
    requires Ref(vm, q, j) && q != p
    ensures Shape(Exit(vm, p)) && SwappedOk(Exit(vm, p), vm.procs[q].spt[j])
  {
    var sp := vm.procs[q].spt[j];
    if sp.instructions == SWAP {
      assert SwappedOk(vm, sp) && OwnsSlot(vm, q, j, sp.swapIndex);
      SlotIsOwned(vm, p, sp.swapIndex);
    }
  }

  lemma ExitSlotsOk(vm: VM, p: Pid)
    requires SlotsOk(vm) && p in vm.procs
    ensures SlotsOk(Exit(vm, p))
  {
    var vm' := Exit(vm, p);
    forall s | 0 <= s < |vm'.swap| && vm'.swap[s].filled ensures exists q, j :: OwnsSlot(vm', q, j, s) {
      SlotIsOwned(vm, p, s);
      var q, j :| OwnsSlot(vm, q, j, s);
      assert OwnsSlot(vm', q, j, s);
    }
    forall q, j, s | OwnsSlot(vm', q, j, s) ensures OwnsSlot(vm, q, j, s) {}
  }

  lemma ExitKeeps(vm: VM, p: Pid)
    requires Inv(vm) && p in vm.procs
    ensures Inv(Exit(vm, p))
    ensures forall q, j :: Ref(Exit(vm, p), q, j) <==> Ref(vm, q, j) && q != p
    ensures forall q, j :: Ref(Exit(vm, p), q, j) ==> View(Exit(vm, p), q, j) == View(vm, q, j)
  {
    var vm' := Exit(vm, p);
    ExitFramesOk(vm, p);
    ExitSlotsOk(vm, p);
    forall q, j | Ref(vm', q, j)
      ensures Ref(vm, q, j) && View(vm', q, j) == View(vm, q, j)
      ensures ResidentOk(vm', q, vm'.procs[q], vm'.procs[q].spt[j]) && SwappedOk(vm', vm'.procs[q].spt[j])
    {
      ExitResident(vm, p, q, j);
      ExitSwapped(vm, p, q, j);
    }
    forall q | q in vm'.procs ensures TableInjective(vm'.procs[q].spt) && DirectoryOk(vm'.procs[q]) {
      assert TableInjective(vm.procs[q].spt) && DirectoryOk(vm.procs[q]);
    }
  }
}
