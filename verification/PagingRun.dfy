/** Faults, accesses, exits, and whole runs, measured against flat per-process memory. */
module PagingRun {
  import opened Prelude
  import opened PagingState
  import opened PagingProofs
  import opened Clock

  // ---------- the clock ----------

  ghost predicate AllFilled(vm: VM) {
    forall i :: 0 <= i < |vm.frames| ==> vm.frames[i].filled
  }

  predicate Accessed(vm: VM, i: nat) {
    FrameMapped(vm, i) && FramePte(vm, i).accessed
  }

  lemma MoveHand(vm: VM, h: nat)
    requires Inv(vm) && h < |vm.frames|
    ensures Inv(vm.(hand := h)) && Shed(vm, vm.(hand := h))
  {
    var vm' := vm.(hand := h);
    forall p, j | Ref(vm', p, j)
      ensures ResidentOk(vm', p, vm'.procs[p], vm'.procs[p].spt[j]) && SwappedOk(vm', vm'.procs[p].spt[j])
    {
      assert ResidentOk(vm, p, vm.procs[p], vm.procs[p].spt[j]);
    }
    forall s | 0 <= s < |vm'.swap| && vm'.swap[s].filled ensures exists p, j :: OwnsSlot(vm', p, j, s) {
      var p, j :| OwnsSlot(vm, p, j, s);
      assert OwnsSlot(vm', p, j, s);
    }
    forall p, j, s | OwnsSlot(vm', p, j, s) ensures OwnsSlot(vm, p, j, s) {}
  }

  /** The hand moves to frame `i` and clears its page's accessed bit. */
  ghost function SweepTo(vm: VM, i: nat): (r: VM)
    requires Inv(vm) && i < |vm.frames| && vm.frames[i].filled
    ensures Inv(r) && Shed(vm, r) && r.frames == vm.frames && r.hand == i
  {
    FilledMapped(vm, i);
    ClearKeeps(vm, i);
    var c := ClearAccessed(vm, i);
    MoveHand(c, i);
    ShedTransitive(vm, c, c.(hand := i));
    c.(hand := i)
  }

  lemma ClearBits(vm: VM, i: nat, i': nat)
    requires FrameMapped(vm, i) && FrameMapped(vm, i')
    requires i != i' ==>
      FrameOwner(vm, i) != FrameOwner(vm, i') || FrameEntry(vm, i).upage != FrameEntry(vm, i').upage
    ensures Accessed(ClearAccessed(vm, i), i') == (Accessed(vm, i') && i' != i)
  {
    var r, p := ClearAccessed(vm, i), FrameOwner(vm, i);
    assert r.procs[p].spt == vm.procs[p].spt;
    assert r.frames == vm.frames;
    assert FrameMapped(r, i') && FrameEntry(r, i') == FrameEntry(vm, i');
  }

  lemma FramesApart(vm: VM, i: nat, i': nat)
    requires Inv(vm) && i < |vm.frames| && i' < |vm.frames| && i != i'
    requires vm.frames[i].filled && vm.frames[i'].filled
    ensures FrameMapped(vm, i) && FrameMapped(vm, i')
    ensures FrameOwner(vm, i) != FrameOwner(vm, i') || FrameEntry(vm, i).upage != FrameEntry(vm, i').upage
  {
    FilledMapped(vm, i);
    FilledMapped(vm, i');
    assert TableInjective(vm.procs[FrameOwner(vm, i)].spt);
  }

  /** The accessed bits of the pages in the frames. */
  ghost function Bits(vm: VM): (r: seq<bool>)
    ensures |r| == |vm.frames| && forall i :: 0 <= i < |r| ==> r[i] == Accessed(vm, i)
  {
    seq(|vm.frames|, i requires 0 <= i < |vm.frames| => Accessed(vm, i))
  }

  lemma SweepToBit(vm: VM, i: nat, i': nat)
    requires Inv(vm) && AllFilled(vm) && i < |vm.frames| && i' < |vm.frames|
    ensures Bits(SweepTo(vm, i))[i'] == (Bits(vm)[i'] && i' != i)
  {
    FilledMapped(vm, i);
    if i != i' { FramesApart(vm, i, i'); }
    ClearBits(vm, i, i');
    HandIrrelevant(ClearAccessed(vm, i), i, i');
  }

  lemma PointwiseClear(a: seq<bool>, b: seq<bool>, i: nat)
    requires i < |a| == |b|
    requires forall k :: 0 <= k < |a| ==> b[k] == (a[k] && k != i)
    ensures b == a[i := false]
  {
  }

  lemma SweepToBits(vm: VM, i: nat)
    requires Inv(vm) && AllFilled(vm) && i < |vm.frames|
    ensures Bits(SweepTo(vm, i)) == Bits(vm)[i := false]
  {
    forall i' | 0 <= i' < |vm.frames|
      ensures Bits(SweepTo(vm, i))[i'] == (Bits(vm)[i'] && i' != i)
    {
      SweepToBit(vm, i, i');
    }
    PointwiseClear(Bits(vm), Bits(SweepTo(vm, i)), i);
  }

  lemma HandIrrelevant(vm: VM, h: nat, i: nat)
    requires h < |vm.frames|
    requires vm.hand < |vm.frames|
    ensures Accessed(vm.(hand := h), i) == Accessed(vm, i)
  {
  }

  lemma HandInRange(vm: VM)
    requires Inv(vm)
    ensures vm.hand < |vm.frames|
  {
  }

  /** `m` advances of the hand, clearing as it goes. */
  ghost function Swept(vm: VM, m: nat): (r: VM)
    requires Inv(vm) && AllFilled(vm) && m <= |vm.frames| + 1
    ensures Inv(r) && Shed(vm, r) && r.frames == vm.frames
    ensures r.hand == if m == 0 then vm.hand else Pos(vm.hand, m, |vm.frames|)
  {
    if m == 0 then vm
    else
      var prev := Swept(vm, m - 1);
      var r := SweepTo(prev, Pos(vm.hand, m, |vm.frames|));
      ShedTransitive(vm, prev, r);
      r
  }

  /** A sweep acts on the accessed bits as the clock says. */
  lemma {:induction false} SweptBits(vm: VM, m: nat)
    requires Inv(vm) && AllFilled(vm) && m <= |vm.frames| + 1
    ensures Bits(Swept(vm, m)) == Cleared(Bits(vm), vm.hand, m)
  {
    hide Inv, Shed, SweepTo, Accessed, Bits;
    HandInRange(vm);
    if m > 0 {
      SweptBits(vm, m - 1);
      var prev := Swept(vm, m - 1);
      assert AllFilled(prev);
      SweepToBits(prev, Pos(vm.hand, m, |vm.frames|));
    }
  }

  // ---------- claiming a frame ----------

  /** evict_page: sweep to a victim and evict it; None when swap is full. */
  ghost function EvictPage(vm: VM): (r: Option<VM>)
    requires Inv(vm) && AllFilled(vm)
    ensures r.Some? ==> Inv(r.value) && Shed(vm, r.value) && !r.value.frames[r.value.hand].filled
  {
    var s := Swept(vm, FirstClear(Bits(vm), vm.hand, 1));
    FilledMapped(s, s.hand);
    match EvictChange(s, s.hand)
    case None => None
    case Some(c) =>
      EvictKeeps(s, s.hand);
      ShedTransitive(vm, s, Apply(s, c));
      Some(Apply(s, c))
  }

  /** next_empty_frame: the state after any eviction, and the frame to use. */
  ghost function ClaimFrame(vm: VM): (r: Option<(VM, nat)>)
    requires Inv(vm)
    ensures r.Some? ==> Inv(r.value.0) && Shed(vm, r.value.0)
    ensures r.Some? ==> r.value.1 < |r.value.0.frames| && !r.value.0.frames[r.value.1].filled
  {
    match FirstEmptyFrame(vm.frames)
    case Some(i) => Some((vm, i))
    case None =>
      match EvictPage(vm)
      case None => None
      case Some(vm') => Some((vm', vm'.hand))
  }

  /** The frames of the first `m` pool pages. */
  ghost function FramesOfPages(frames: seq<MetaFrame>, m: nat): (r: set<nat>)
    requires forall k :: 0 <= k < m ==> FindFrame(frames, k).Some?
    ensures forall i :: i in r ==> i < |frames| && frames[i].page.Some? && frames[i].page.value < m
    ensures |r| == m
  {
    if m == 0 then {}
    else FramesOfPages(frames, m - 1) + {FindFrame(frames, m - 1).value}
  }

  /** While a frame is empty the user pool has a page: palloc_get_page does not return null. */
  lemma FreePageExists(vm: VM, i: nat)
    requires Shape(vm) && FramesOk(vm) && PoolOk(vm) && i < |vm.frames| && !vm.frames[i].filled
    ensures FirstFreePage(vm.used).Some?
  {
    if FirstFreePage(vm.used).None? {
      assert vm.frames[i].page == None;
      hide FramesOk;
      var fs, n := FramesOfPages(vm.frames, |vm.frames|), |vm.frames|;
      RangeSize(0, n);
      SubsetSize(fs, Range(0, n) - {i});
    }
  }

  // ---------- faults ----------

  datatype Outcome = Running(vm: VM) | Panicked | Killed

  const STACK_TOP := PHYS_BASE / PGSIZE - 1

  predicate IsStackAccess(addr: nat, esp: nat) {
    || (addr < PHYS_BASE && addr >= esp)
    || (esp - 0x20) % WORD == addr
    || (esp - 0x04) % WORD == addr
  }

  /** The entry made for a stack page. */
  function StackEntry(u: nat): SpInfo {
    SpInfo(0, 0, 0, true, u, None, STACK, -1)
  }

  /** The entry load_segment makes for a page of an executable. */
  function FileEntry(file: nat, offset: nat, bytes: nat, writable: bool, u: nat): SpInfo {
    SpInfo(file, offset, bytes, writable, u, None, FILE, -1)
  }

  predicate Fresh(sp: SpInfo) {
    sp.kpage == None && sp.instructions != SWAP
  }

  /** `vm'` is `vm` with one page more. */
  ghost predicate Grown(vm: VM, vm': VM, p: Pid, sp: SpInfo) {
    && p in vm.procs && vm'.procs.Keys == vm.procs.Keys
    && vm' == AddEntry(vm, p, sp)
    && (forall q, j :: Ref(vm', q, j) <==> Ref(vm, q, j) || (q == p && j == |vm.procs[p].spt|))
    && (forall q, j {:trigger vm'.procs[q].spt[j]} :: Ref(vm, q, j) ==>
          vm'.procs[q].spt[j] == vm.procs[q].spt[j] && View(vm', q, j) == View(vm, q, j))
    && vm'.procs[p].spt[|vm.procs[p].spt|] == sp
    && View(vm', p, |vm.procs[p].spt|) == Home(vm, sp)
  }

  lemma AddGrows(vm: VM, p: Pid, sp: SpInfo)
    requires p in vm.procs && Fresh(sp)
    ensures Grown(vm, AddEntry(vm, p, sp), p, sp)
  {
  }

  lemma FindUpageAppend(spt: seq<SpInfo>, sp: SpInfo, u: nat)
    requires FindUpage(spt, u).Some?
    ensures FindUpage(spt + [sp], u) == FindUpage(spt, u)
  {
    var a, b := FindUpage(spt, u).value, FindUpage(spt + [sp], u);
    assert (spt + [sp])[a].upage == u;
    assert b.Some? && b.value <= a;
    assert spt[b.value].upage == u;
  }

  lemma AddTables(vm: VM, p: Pid, sp: SpInfo)
    requires Shape(vm) && TablesOk(vm)
    requires p in vm.procs && Fresh(sp)
    ensures Shape(AddEntry(vm, p, sp)) && TablesOk(AddEntry(vm, p, sp))
  {
    var vm' := AddEntry(vm, p, sp);
    AddGrows(vm, p, sp);
    forall q, j | Ref(vm', q, j)
      ensures ResidentOk(vm', q, vm'.procs[q], vm'.procs[q].spt[j]) && SwappedOk(vm', vm'.procs[q].spt[j])
    {
      if Ref(vm, q, j) {
        assert ResidentOk(vm, q, vm.procs[q], vm.procs[q].spt[j]);
      }
    }
  }

  lemma AddDirectories(vm: VM, p: Pid, sp: SpInfo)
    requires TablesInjective(vm) && DirectoriesOk(vm)
    requires p in vm.procs && Fresh(sp) && FindUpage(vm.procs[p].spt, sp.upage) == None
    ensures TablesInjective(AddEntry(vm, p, sp)) && DirectoriesOk(AddEntry(vm, p, sp))
  {
    var vm' := AddEntry(vm, p, sp);
    var proc := vm.procs[p];
    assert TableInjective(proc.spt) && TableInjective(vm'.procs[p].spt);
    assert DirectoryOk(proc);
    forall u | u in proc.pd && proc.pd[u].present
      ensures FindUpage(vm'.procs[p].spt, u) == FindUpage(proc.spt, u)
    {
      FindUpageAppend(proc.spt, sp, u);
    }
  }

  lemma AddFrames(vm: VM, p: Pid, sp: SpInfo)
    requires Shape(vm) && FramesOk(vm) && SlotsOk(vm)
    requires p in vm.procs && Fresh(sp)
    ensures Shape(AddEntry(vm, p, sp)) && FramesOk(AddEntry(vm, p, sp)) && SlotsOk(AddEntry(vm, p, sp))
  {
    var vm' := AddEntry(vm, p, sp);
    AddGrows(vm, p, sp);
    forall i | 0 <= i < |vm.frames| && vm.frames[i].filled
      ensures FindKpage(vm'.procs[vm.frames[i].owner.value].spt, vm.frames[i].page.value).Some?
    {
      var q, k := vm.frames[i].owner.value, vm.frames[i].page.value;
      var j := FindKpage(vm.procs[q].spt, k).value;
      assert vm'.procs[q].spt[j] == vm.procs[q].spt[j];
    }
    forall q, j, s ensures OwnsSlot(vm', q, j, s) <==> OwnsSlot(vm, q, j, s) {
      if OwnsSlot(vm, q, j, s) {
        assert vm'.procs[q].spt[j] == vm.procs[q].spt[j];
      }
    }
  }

  lemma AddKeeps(vm: VM, p: Pid, sp: SpInfo)
    requires Inv(vm) && p in vm.procs && Fresh(sp) && FindUpage(vm.procs[p].spt, sp.upage) == None
    ensures Inv(AddEntry(vm, p, sp))
  {
    AddTables(vm, p, sp);
    AddDirectories(vm, p, sp);
    AddFrames(vm, p, sp);
  }

  predicate Present(vm: VM, p: Pid, u: nat) {
    p in vm.procs && u in vm.procs[p].pd && vm.procs[p].pd[u].present
  }

  /** The page can be accessed as asked. */
  predicate Usable(vm: VM, p: Pid, u: nat, write: bool) {
    && Present(vm, p, u) && vm.procs[p].pd[u].kpage < |vm.mem|
    && (write ==> vm.procs[p].pd[u].writable)
  }

  lemma ResidentUsable(vm: VM, p: Pid, j: nat, write: bool)
    requires Inv(vm) && Ref(vm, p, j) && vm.procs[p].spt[j].kpage.Some?
    requires write ==> vm.procs[p].spt[j].writable
    ensures Usable(vm, p, vm.procs[p].spt[j].upage, write)
  {
    assert ResidentOk(vm, p, vm.procs[p], vm.procs[p].spt[j]);
  }

  /** Loads page `j` of `p` into the frame `i` that was claimed for it. */
  ghost function LoadPage(vm: VM, p: Pid, j: nat, i: nat, write: bool): (r: Outcome)
    requires Inv(vm) && Ref(vm, p, j) && vm.procs[p].spt[j].kpage == None
    requires i < |vm.frames| && !vm.frames[i].filled
    ensures r.Running? ==> Inv(r.vm) && SameView(vm, r.vm) && Usable(r.vm, p, vm.procs[p].spt[j].upage, write)
  {
    var sp := vm.procs[p].spt[j];
    if write && !sp.writable then Killed
    else if sp.instructions == FILE && !FileBytesExist(vm.files, sp) then Panicked
    else
      FreePageExists(vm, i);
      var k := FirstFreePage(vm.used).value;
      InstallKeeps(vm, p, j, i, k);
      var vm' := Apply(vm, InstallChange(vm, p, j, i, k));
      ResidentUsable(vm', p, j, write);
      Running(vm')
  }

  /** Page `u` of `p`, if it exists, is not in memory. */
  predicate Absent(vm: VM, p: Pid, u: nat) {
    && p in vm.procs
    && var at := FindUpage(vm.procs[p].spt, u);
       at.Some? ==> vm.procs[p].spt[at.value].kpage == None
  }

  /** page_fault once frame `i` has been claimed: find the page or grow the stack, and load it. */
  ghost function Resolve(vm: VM, p: Pid, addr: nat, esp: nat, write: bool, i: nat): (r: Outcome)
    requires Inv(vm) && Absent(vm, p, addr / PGSIZE)
    requires i < |vm.frames| && !vm.frames[i].filled
    ensures r.Running? ==> Inv(r.vm) && r.vm.files == vm.files && Usable(r.vm, p, addr / PGSIZE, write)
  {
    var u := addr / PGSIZE;
    match FindUpage(vm.procs[p].spt, u)
    case Some(j) => LoadPage(vm, p, j, i, write)
    case None =>
      if !IsStackAccess(addr, esp) then Killed
      else
        AddKeeps(vm, p, StackEntry(u));
        LoadPage(AddEntry(vm, p, StackEntry(u)), p, |vm.procs[p].spt|, i, write)
  }

  /** page_fault, from the point where it claims a frame. */
  ghost function Fault(vm: VM, p: Pid, addr: nat, esp: nat, write: bool): (r: Outcome)
    requires Inv(vm) && Absent(vm, p, addr / PGSIZE)
    ensures r.Running? ==> Inv(r.vm) && r.vm.files == vm.files && Usable(r.vm, p, addr / PGSIZE, write)
  {
    match ClaimFrame(vm)
    case None => Panicked
    case Some((vm1, i)) =>
      ShedAbsent(vm, vm1, p, addr / PGSIZE);
      Resolve(vm1, p, addr, esp, write, i)
  }

  lemma ShedAbsent(vm: VM, vm': VM, p: Pid, u: nat)
    requires Shed(vm, vm') && Absent(vm, p, u)
    ensures Absent(vm', p, u)
  {
    SameFind(vm, vm', p, u);
    var at := FindUpage(vm.procs[p].spt, u);
    assert at.Some? ==> Ref(vm, p, at.value);
  }

  lemma SameFind(vm: VM, vm': VM, p: Pid, u: nat)
    requires SameView(vm, vm') && p in vm.procs
    ensures FindUpage(vm'.procs[p].spt, u) == FindUpage(vm.procs[p].spt, u)
  {
    var a, b := FindUpage(vm.procs[p].spt, u), FindUpage(vm'.procs[p].spt, u);
    assert forall j :: 0 <= j < |vm.procs[p].spt| ==>
        Ref(vm, p, j) && vm'.procs[p].spt[j].upage == vm.procs[p].spt[j].upage;
  }

  // ---------- flat memory ----------

  /** What each process should see: one page of bytes per page it has. */
  type Flat = map<(Pid, nat), Page>

  ghost predicate Agrees(vm: VM, flat: Flat) {
    && (forall p, j {:trigger vm.procs[p].spt[j]} :: Ref(vm, p, j) ==>
          (p, vm.procs[p].spt[j].upage) in flat && flat[(p, vm.procs[p].spt[j].upage)] == View(vm, p, j))
    && (forall p, u :: (p, u) in flat ==> p in vm.procs && FindUpage(vm.procs[p].spt, u).Some?)
  }

  lemma AgreesSame(vm: VM, vm': VM, flat: Flat)
    requires SameView(vm, vm') && Agrees(vm, flat)
    ensures Agrees(vm', flat)
  {
    forall p, j | Ref(vm', p, j)
      ensures (p, vm'.procs[p].spt[j].upage) in flat
      ensures flat[(p, vm'.procs[p].spt[j].upage)] == View(vm', p, j)
    {
      assert Ref(vm, p, j) && vm.procs[p].spt[j].upage == vm'.procs[p].spt[j].upage;
    }
    forall p, u | (p, u) in flat ensures p in vm'.procs && FindUpage(vm'.procs[p].spt, u).Some? {
      SameFind(vm, vm', p, u);
    }
  }

  lemma AgreesGrown(vm: VM, p: Pid, sp: SpInfo, flat: Flat)
    requires p in vm.procs && Fresh(sp) && FindUpage(vm.procs[p].spt, sp.upage) == None
    requires Agrees(vm, flat)
    ensures Agrees(AddEntry(vm, p, sp), flat[(p, sp.upage) := Home(vm, sp)])
  {
    var vm' := AddEntry(vm, p, sp);
    AddGrows(vm, p, sp);
    var flat' := flat[(p, sp.upage) := Home(vm, sp)];
    forall q, j | Ref(vm', q, j)
      ensures (q, vm'.procs[q].spt[j].upage) in flat'
      ensures flat'[(q, vm'.procs[q].spt[j].upage)] == View(vm', q, j)
    {
      if Ref(vm, q, j) {
        assert vm'.procs[q].spt[j] == vm.procs[q].spt[j];
      }
    }
    forall q, u | (q, u) in flat' ensures q in vm'.procs && FindUpage(vm'.procs[q].spt, u).Some? {
      if (q, u) == (p, sp.upage) {
        assert vm'.procs[p].spt[|vm.procs[p].spt|].upage == u;
      } else if q == p {
        FindUpageAppend(vm.procs[p].spt, sp, u);
      }
    }
  }

  lemma LoadRefines(vm: VM, p: Pid, j: nat, i: nat, write: bool, flat: Flat)
    requires Inv(vm) && Ref(vm, p, j) && vm.procs[p].spt[j].kpage == None
    requires i < |vm.frames| && !vm.frames[i].filled && Agrees(vm, flat)
    requires LoadPage(vm, p, j, i, write).Running?
    ensures Agrees(LoadPage(vm, p, j, i, write).vm, flat) && (p, vm.procs[p].spt[j].upage) in flat
  {
    AgreesSame(vm, LoadPage(vm, p, j, i, write).vm, flat);
  }

  lemma ResolveRefines(vm: VM, p: Pid, addr: nat, esp: nat, write: bool, i: nat, flat: Flat)
    requires Inv(vm) && Absent(vm, p, addr / PGSIZE) && Agrees(vm, flat)
    requires i < |vm.frames| && !vm.frames[i].filled
    requires Resolve(vm, p, addr, esp, write, i).Running?
    ensures Agrees(Resolve(vm, p, addr, esp, write, i).vm, WithPage(flat, p, addr / PGSIZE))
  {
    var u := addr / PGSIZE;
    var at := FindUpage(vm.procs[p].spt, u);
    if at.Some? {
      LoadRefines(vm, p, at.value, i, write, flat);
    } else {
      assert (p, u) !in flat;
      AddKeeps(vm, p, StackEntry(u));
      AgreesGrown(vm, p, StackEntry(u), flat);
      LoadRefines(AddEntry(vm, p, StackEntry(u)), p, |vm.procs[p].spt|, i, write, flat[(p, u) := ZERO_PAGE]);
    }
  }

  /** A resolved fault changes no byte; only a new stack page adds bytes, all zero. */
  lemma FaultRefines(vm: VM, p: Pid, addr: nat, esp: nat, write: bool, flat: Flat)
    requires Inv(vm) && Absent(vm, p, addr / PGSIZE) && Agrees(vm, flat)
    requires Fault(vm, p, addr, esp, write).Running?
    ensures Agrees(Fault(vm, p, addr, esp, write).vm, WithPage(flat, p, addr / PGSIZE))
  {
    var (vm1, i) := ClaimFrame(vm).value;
    ShedAbsent(vm, vm1, p, addr / PGSIZE);
    AgreesSame(vm, vm1, flat);
    ResolveRefines(vm1, p, addr, esp, write, i, flat);
  }

  /** Flat memory in which page `u` of `p` exists, zero unless it was there. */
  function WithPage(flat: Flat, p: Pid, u: nat): Flat {
    if (p, u) in flat then flat else flat[(p, u) := ZERO_PAGE]
  }

  // ---------- accesses ----------

  datatype Op = Load | Store(b: Byte)

  /** Present pages are the pages of filled frames. */
  lemma PresentFrame(vm: VM, p: Pid, u: nat) returns (i: nat)
    requires Inv(vm) && Present(vm, p, u)
    ensures i < |vm.frames| && vm.frames[i].filled && FrameMapped(vm, i)
    ensures FindFrame(vm.frames, vm.procs[p].pd[u].kpage) == Some(i)
    ensures FrameOwner(vm, i) == p && FrameEntry(vm, i).upage == u
    ensures FrameIndex(vm, i) == FindUpage(vm.procs[p].spt, u).value
    ensures FrameEntry(vm, i).kpage == Some(vm.procs[p].pd[u].kpage) == vm.frames[i].page
  {
    assert DirectoryOk(vm.procs[p]) && TableInjective(vm.procs[p].spt);
    var j := FindUpage(vm.procs[p].spt, u).value;
    assert ResidentOk(vm, p, vm.procs[p], vm.procs[p].spt[j]);
    i := FindFrame(vm.frames, vm.procs[p].pd[u].kpage).value;
    FilledMapped(vm, i);
  }

  /** The PTE bits and bytes the processor leaves behind. */
  function TouchedPte(pte: Pte, op: Op): Pte {
    pte.(accessed := true, dirty := pte.dirty || op.Store?)
  }

  function TouchedPage(page: Page, off: nat, op: Op): Page
    requires off < PGSIZE
  {
    if op.Store? then page[off := op.b] else page
  }

  /** The processor's access to a present page. */
  function Touch(vm: VM, p: Pid, u: nat, off: nat, op: Op): VM
    requires Present(vm, p, u) && vm.procs[p].pd[u].kpage < |vm.mem| && off < PGSIZE
  {
    var pte := vm.procs[p].pd[u];
    vm.(mem := vm.mem[pte.kpage := TouchedPage(vm.mem[pte.kpage], off, op)],
        procs := vm.procs[p := vm.procs[p].(pd := vm.procs[p].pd[u := TouchedPte(pte, op)])])
  }

  lemma TouchIsRetouch(vm: VM, p: Pid, u: nat, off: nat, op: Op, i: nat)
    requires Present(vm, p, u) && vm.procs[p].pd[u].kpage < |vm.mem| && off < PGSIZE
    requires FrameMapped(vm, i) && vm.frames[i].filled && vm.used[vm.frames[i].page.value]
    requires FrameOwner(vm, i) == p && FrameEntry(vm, i).upage == u
    requires vm.frames[i].page == Some(vm.procs[p].pd[u].kpage)
    ensures var k := vm.procs[p].pd[u].kpage;
            var c := Retouch(vm, i, TouchedPte(vm.procs[p].pd[u], op), TouchedPage(vm.mem[k], off, op));
            InRange(vm, c) && Touch(vm, p, u, off, op) == Apply(vm, c)
  {
    var k := vm.procs[p].pd[u].kpage;
    var c := Retouch(vm, i, TouchedPte(vm.procs[p].pd[u], op), TouchedPage(vm.mem[k], off, op));
    var a, b := Touch(vm, p, u, off, op), Apply(vm, c);
    assert a.frames == b.frames && a.used == b.used;
    assert a.procs[p].spt == b.procs[p].spt;
  }

  lemma TouchFits(vm: VM, p: Pid, u: nat, off: nat, op: Op) returns (c: Change)
    requires Inv(vm) && Usable(vm, p, u, op.Store?) && off < PGSIZE
    ensures Fits(vm, c) && Touch(vm, p, u, off, op) == Apply(vm, c)
    ensures c.p == p && c.entry.upage == u && c.frame.filled && Holds(vm, p, c.j, c.k)
    ensures c.k == vm.procs[p].pd[u].kpage && c.page == TouchedPage(vm.mem[c.k], off, op)
  {
    var i := PresentFrame(vm, p, u);
    FilledMapped(vm, i);
    var k := vm.procs[p].pd[u].kpage;
    c := Retouch(vm, i, TouchedPte(vm.procs[p].pd[u], op), TouchedPage(vm.mem[k], off, op));
    TouchIsRetouch(vm, p, u, off, op, i);
    RetouchFits(vm, i, c.pte, c.page);
  }

  lemma TouchKeeps(vm: VM, p: Pid, u: nat, off: nat, op: Op)
    requires Inv(vm) && Usable(vm, p, u, op.Store?) && off < PGSIZE
    ensures Inv(Touch(vm, p, u, off, op))
  {
    var c := TouchFits(vm, p, u, off, op);
    ApplyKeeps(vm, c);
  }

  lemma TouchRefines(vm: VM, p: Pid, u: nat, off: nat, op: Op, flat: Flat)
    requires Inv(vm) && Usable(vm, p, u, op.Store?) && off < PGSIZE && Agrees(vm, flat)
    ensures (p, u) in flat && vm.mem[vm.procs[p].pd[u].kpage] == flat[(p, u)]
    ensures Agrees(Touch(vm, p, u, off, op), flat[(p, u) := TouchedPage(flat[(p, u)], off, op)])
  {
    var c := TouchFits(vm, p, u, off, op);
    AgreesTouched(vm, c, flat);
    assert Ref(vm, p, c.j) && View(vm, p, c.j) == vm.mem[c.k];
  }

  lemma AgreesTouched(vm: VM, c: Change, flat: Flat)
    requires Fits(vm, c) && c.frame.filled && TablesInjective(vm) && Agrees(vm, flat)
    ensures Agrees(Apply(vm, c), flat[(c.p, c.entry.upage) := c.page])
  {
    var vm', flat' := Apply(vm, c), flat[(c.p, c.entry.upage) := c.page];
    assert TableInjective(vm.procs[c.p].spt);
    forall p, j | Ref(vm', p, j)
      ensures (p, vm'.procs[p].spt[j].upage) in flat'
      ensures flat'[(p, vm'.procs[p].spt[j].upage)] == View(vm', p, j)
    {
      assert Ref(vm, p, j);
      if !(p == c.p && j == c.j) {
        OtherEntry(vm, c, p, j);
        OtherView(vm, c, p, j);
      }
    }
    forall p, u | (p, u) in flat' ensures p in vm'.procs && FindUpage(vm'.procs[p].spt, u).Some? {
      if p == c.p {
        assert FindUpage(vm.procs[p].spt, u).Some?;
        assert vm'.procs[p].spt[FindUpage(vm.procs[p].spt, u).value].upage == u;
      }
    }
  }

  lemma PresentInRange(vm: VM, p: Pid, u: nat)
    requires Inv(vm) && Present(vm, p, u)
    ensures vm.procs[p].pd[u].kpage < |vm.mem|
  {
    var i := PresentFrame(vm, p, u);
  }

  lemma NotPresentAbsent(vm: VM, p: Pid, u: nat)
    requires Inv(vm) && p in vm.procs && !Present(vm, p, u)
    ensures Absent(vm, p, u)
  {
    var at := FindUpage(vm.procs[p].spt, u);
    if at.Some? {
      assert ResidentOk(vm, p, vm.procs[p], vm.procs[p].spt[at.value]);
    }
  }

  /** The page made present for an access, faulting it in when needed. A store to a present read-only
      page is a fault too; it claims a frame before it is turned down. */
  ghost function MakePresent(vm: VM, p: Pid, addr: nat, esp: nat, write: bool): (r: Outcome)
    requires Inv(vm) && p in vm.procs
    ensures r.Running? ==> Inv(r.vm) && r.vm.files == vm.files && Usable(r.vm, p, addr / PGSIZE, write)
  {
    if Present(vm, p, addr / PGSIZE) then
      PresentInRange(vm, p, addr / PGSIZE);
      if !(write && !vm.procs[p].pd[addr / PGSIZE].writable) then Running(vm)
      else if ClaimFrame(vm).None? then Panicked
      else Killed
    else
      NotPresentAbsent(vm, p, addr / PGSIZE);
      Fault(vm, p, addr, esp, write)
  }

  lemma MakePresentRefines(vm: VM, p: Pid, addr: nat, esp: nat, write: bool, flat: Flat)
    requires Inv(vm) && p in vm.procs && Agrees(vm, flat)
    requires MakePresent(vm, p, addr, esp, write).Running?
    ensures Agrees(MakePresent(vm, p, addr, esp, write).vm, WithPage(flat, p, addr / PGSIZE))
  {
    var u := addr / PGSIZE;
    if Present(vm, p, u) {
      var i := PresentFrame(vm, p, u);
      assert Ref(vm, p, FrameIndex(vm, i));
    } else {
      NotPresentAbsent(vm, p, u);
      FaultRefines(vm, p, addr, esp, write, flat);
    }
  }
}
