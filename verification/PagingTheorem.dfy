/** Paging is invisible: every run of the kernel shows each process the bytes flat memory would. */
module PagingTheorem {
  import opened Prelude
  import opened Clock
  import opened PagingState
  import opened PagingProofs
  import opened PagingRun
  import opened PagingExit

  datatype Event =
    | Spawn(p: Pid)
    | MapFile(p: Pid, file: nat, offset: nat, bytes: nat, writable: bool, u: nat)
    | SetupStack(p: Pid)
    | PageIn(p: Pid, addr: nat, esp: nat, write: bool)
    | Access(p: Pid, addr: nat, esp: nat, op: Op)
    | Leave(p: Pid)

  /** What the kernel and the processor allow to happen next. page_fault lets go of the memory lock
      before the faulting instruction is retried, so `PageIn` is an event of its own: any events of
      other processes, evicting the page again among them, may come between it and the access. */
  predicate Enabled(vm: VM, e: Event) {
    match e
    case Spawn(p) => p !in vm.procs
    case MapFile(p, _, _, bytes, _, u) => p in vm.procs && bytes <= PGSIZE && FindUpage(vm.procs[p].spt, u) == None
    case SetupStack(p) => p in vm.procs && FindUpage(vm.procs[p].spt, STACK_TOP) == None
    case PageIn(p, addr, _, _) => p in vm.procs && addr < PHYS_BASE && !Present(vm, p, addr / PGSIZE)
    case Access(p, addr, _, _) => p in vm.procs && addr < PHYS_BASE
    case Leave(p) => p in vm.procs
  }

  function Entry(e: Event): SpInfo
    requires e.MapFile? || e.SetupStack?
  {
    if e.MapFile? then FileEntry(e.file, e.offset, e.bytes, e.writable, e.u) else StackEntry(STACK_TOP)
  }

  /** assign_page for page `j` of `p`, then load it. */
  ghost function ClaimAndLoad(vm: VM, p: Pid, j: nat): (r: Outcome)
    requires Inv(vm) && Ref(vm, p, j) && vm.procs[p].spt[j].kpage == None
    ensures r.Running? ==> Inv(r.vm) && r.vm.files == vm.files
  {
    match ClaimFrame(vm)
    case None => Panicked
    case Some((vm1, i)) =>
      assert vm1.procs[p].spt[j] == vm.procs[p].spt[j];
      LoadPage(vm1, p, j, i, false)
  }

  lemma ClaimAndLoadRefines(vm: VM, p: Pid, j: nat, flat: Flat)
    requires Inv(vm) && Ref(vm, p, j) && vm.procs[p].spt[j].kpage == None && Agrees(vm, flat)
    requires ClaimAndLoad(vm, p, j).Running?
    ensures Agrees(ClaimAndLoad(vm, p, j).vm, flat)
  {
    var (vm1, i) := ClaimFrame(vm).value;
    AgreesSame(vm, vm1, flat);
    assert vm1.procs[p].spt[j] == vm.procs[p].spt[j];
    LoadRefines(vm1, p, j, i, false, flat);
  }

  /** setup_stack: a new stack entry, a claimed frame, a zeroed page. */
  ghost function NewStack(vm: VM, p: Pid, u: nat): (r: Outcome)
    requires Inv(vm) && p in vm.procs && FindUpage(vm.procs[p].spt, u) == None
    ensures r.Running? ==> Inv(r.vm) && r.vm.files == vm.files
  {
    AddKeeps(vm, p, StackEntry(u));
    ClaimAndLoad(AddEntry(vm, p, StackEntry(u)), p, |vm.procs[p].spt|)
  }

  lemma NewStackRefines(vm: VM, p: Pid, u: nat, flat: Flat)
    requires Inv(vm) && p in vm.procs && FindUpage(vm.procs[p].spt, u) == None && Agrees(vm, flat)
    requires NewStack(vm, p, u).Running?
    ensures Agrees(NewStack(vm, p, u).vm, flat[(p, u) := ZERO_PAGE])
  {
    var sp := StackEntry(u);
    AddKeeps(vm, p, sp);
    AgreesGrown(vm, p, sp, flat);
    ClaimAndLoadRefines(AddEntry(vm, p, sp), p, |vm.procs[p].spt|, flat[(p, u) := ZERO_PAGE]);
  }

  function Spawned(vm: VM, p: Pid): VM {
    vm.(procs := vm.procs[p := Process([], map[])])
  }

  /** One event: the next state, and for a load the byte delivered. */
  ghost function Step(vm: VM, e: Event): (r: (Outcome, Option<Byte>))
    requires Inv(vm) && Enabled(vm, e)
    ensures r.0.Running? ==> Inv(r.0.vm) && r.0.vm.files == vm.files
  {
    match e
    case Spawn(p) => SpawnKeeps(vm, p); (Running(Spawned(vm, p)), None)
    case MapFile(p, _, _, _, _, _) => AddKeeps(vm, p, Entry(e)); (Running(AddEntry(vm, p, Entry(e))), None)
    case SetupStack(p) => (NewStack(vm, p, STACK_TOP), None)
    case Leave(p) => ExitKeeps(vm, p); (Running(Exit(vm, p)), None)
    case PageIn(p, addr, esp, write) => (MakePresent(vm, p, addr, esp, write), None)
    case Access(p, addr, esp, op) =>
      var r := MakePresent(vm, p, addr, esp, op.Store?);
      if !r.Running? then (r, None)
      else
        var u, off := addr / PGSIZE, addr % PGSIZE;
        TouchKeeps(r.vm, p, u, off, op);
        (Running(Touch(r.vm, p, u, off, op)),
         if op.Load? then Some(r.vm.mem[r.vm.procs[p].pd[u].kpage][off]) else None)
  }

  /** The same event on flat memory. */
  function FlatStep(files: map<nat, seq<Byte>>, flat: Flat, e: Event): Flat {
    match e
    case Spawn(_) => flat
    case MapFile(p, _, _, _, _, u) => flat[(p, u) := FileImage(files, Entry(e))]
    case SetupStack(p) => flat[(p, STACK_TOP) := ZERO_PAGE]
    case Leave(p) => map x | x in flat && x.0 != p :: flat[x]
    case PageIn(p, addr, _, _) => WithPage(flat, p, addr / PGSIZE)
    case Access(p, addr, _, op) =>
      var page := WithPage(flat, p, addr / PGSIZE)[(p, addr / PGSIZE)];
      WithPage(flat, p, addr / PGSIZE)[(p, addr / PGSIZE) := TouchedPage(page, addr % PGSIZE, op)]
  }

  function FlatByte(flat: Flat, e: Event): Option<Byte> {
    if e.Access? && e.op.Load?
    then Some(WithPage(flat, e.p, e.addr / PGSIZE)[(e.p, e.addr / PGSIZE)][e.addr % PGSIZE])
    else None
  }

  lemma SpawnKeeps(vm: VM, p: Pid)
    requires Inv(vm) && p !in vm.procs
    ensures Inv(Spawned(vm, p))
  {
    var vm' := Spawned(vm, p);
    forall q, j | Ref(vm', q, j)
      ensures ResidentOk(vm', q, vm'.procs[q], vm'.procs[q].spt[j]) && SwappedOk(vm', vm'.procs[q].spt[j])
    {
      assert Ref(vm, q, j) && ResidentOk(vm, q, vm.procs[q], vm.procs[q].spt[j]);
    }
    forall s | 0 <= s < |vm'.swap| && vm'.swap[s].filled ensures exists q, j :: OwnsSlot(vm', q, j, s) {
      var q, j :| OwnsSlot(vm, q, j, s);
      assert OwnsSlot(vm', q, j, s);
    }
    forall q, j, s | OwnsSlot(vm', q, j, s) ensures OwnsSlot(vm, q, j, s) {}
    forall q | q in vm'.procs ensures TableInjective(vm'.procs[q].spt) && DirectoryOk(vm'.procs[q]) {
      if q != p { assert TableInjective(vm.procs[q].spt) && DirectoryOk(vm.procs[q]); }
    }
  }

  lemma SpawnRefines(vm: VM, p: Pid, flat: Flat)
    requires p !in vm.procs && Agrees(vm, flat)
    ensures Agrees(Spawned(vm, p), flat)
  {
    var vm' := Spawned(vm, p);
    forall q, j | Ref(vm', q, j)
      ensures (q, vm'.procs[q].spt[j].upage) in flat && flat[(q, vm'.procs[q].spt[j].upage)] == View(vm', q, j)
    {
      assert Ref(vm, q, j) && vm'.procs[q] == vm.procs[q];
    }
  }

  lemma ExitRefines(vm: VM, p: Pid, flat: Flat)
    requires Inv(vm) && p in vm.procs && Agrees(vm, flat)
    ensures Agrees(Exit(vm, p), map x | x in flat && x.0 != p :: flat[x])
  {
    ExitKeeps(vm, p);
    var vm' := Exit(vm, p);
    forall q, j | Ref(vm', q, j)
      ensures (q, vm'.procs[q].spt[j].upage) in flat && flat[(q, vm'.procs[q].spt[j].upage)] == View(vm', q, j)
    {
      assert Ref(vm, q, j) && vm'.procs[q] == vm.procs[q];
    }
  }

  lemma AccessRefines(vm: VM, e: Event, flat: Flat)
    requires Inv(vm) && e.Access? && Enabled(vm, e) && Agrees(vm, flat) && Step(vm, e).0.Running?
    ensures Agrees(Step(vm, e).0.vm, FlatStep(vm.files, flat, e))
    ensures Step(vm, e).1 == FlatByte(flat, e)
  {
    var Access(p, addr, esp, op) := e;
    var u, flat1 := addr / PGSIZE, WithPage(flat, p, addr / PGSIZE);
    MakePresentRefines(vm, p, addr, esp, op.Store?, flat);
    var vm1 := MakePresent(vm, p, addr, esp, op.Store?).vm;
    TouchRefines(vm1, p, u, addr % PGSIZE, op, flat1);
  }

  /** Each event does to what processes see what it does to flat memory, and keeps the invariant. */
  lemma StepRefines(vm: VM, e: Event, flat: Flat)
    requires Inv(vm) && Enabled(vm, e) && Agrees(vm, flat) && Step(vm, e).0.Running?
    ensures Agrees(Step(vm, e).0.vm, FlatStep(vm.files, flat, e))
    ensures Step(vm, e).1 == FlatByte(flat, e)
  {
    match e
    case Spawn(p) => SpawnRefines(vm, p, flat);
    case MapFile(p, _, _, _, _, _) =>
      AddKeeps(vm, p, Entry(e));
      AgreesGrown(vm, p, Entry(e), flat);
    case SetupStack(p) => NewStackRefines(vm, p, STACK_TOP, flat);
    case Leave(p) => ExitRefines(vm, p, flat);
    case PageIn(p, addr, esp, write) => MakePresentRefines(vm, p, addr, esp, write, flat);
    case Access(_, _, _, _) => AccessRefines(vm, e, flat);
  }

  /** An access leaves the page's accessed bit set, and a store its dirty bit. */
  lemma AccessMarks(vm: VM, p: Pid, addr: nat, esp: nat, op: Op)
    requires Inv(vm) && p in vm.procs && addr < PHYS_BASE && Step(vm, Access(p, addr, esp, op)).0.Running?
    ensures var vm', u := Step(vm, Access(p, addr, esp, op)).0.vm, addr / PGSIZE;
            && Present(vm', p, u) && vm'.procs[p].pd[u].accessed && (op.Store? ==> vm'.procs[p].pd[u].dirty)
  {
    hide Inv, MakePresent;
  }

  /** Second chance: while some page in memory has not been accessed since the hand passed it, no page
      that has been is evicted. */
  lemma SecondChance(vm: VM, i: nat, i': nat)
    requires Inv(vm) && AllFilled(vm) && i < |vm.frames| && i' < |vm.frames|
    requires Accessed(vm, i) && !Accessed(vm, i') && EvictPage(vm).Some?
    ensures i < |EvictPage(vm).value.frames| && EvictPage(vm).value.frames[i] == vm.frames[i]
  {
    hide Inv, Shed, Accessed;
    HandInRange(vm);
    var bits, n := Bits(vm), |vm.frames|;
    var d := FirstClear(bits, vm.hand, 1);
    assert bits[i] && !bits[i'];
    assert d <= Dist(vm.hand, i', n);
    assert Pos(vm.hand, d, n) != i;
    VictimOnly(vm, d);
  }

  /** Eviction takes a swap slot only for a stack page or a dirty one, and fails only when there is none to
      take; any other page just leaves memory. */
  lemma EvictionSwaps(vm: VM, i: nat)
    requires Inv(vm) && i < |vm.frames| && vm.frames[i].filled && FrameMapped(vm, i)
    ensures var sp, saved := FrameEntry(vm, i), FrameEntry(vm, i).instructions == STACK || FramePte(vm, i).dirty;
            match EvictChange(vm, i)
            case None => saved && forall s :: 0 <= s < |vm.swap| ==> vm.swap[s].filled
            case Some(c) =>
              && InRange(vm, c)
              && var vm' := Apply(vm, c);
                 if saved then
                   exists s :: 0 <= s < |vm.swap| && !vm.swap[s].filled && vm'.swap[s].filled &&
                     vm'.slots[s] == vm.mem[vm.frames[i].page.value] && vm'.slots == vm.slots[s := vm'.slots[s]]
                 else vm'.swap == vm.swap && vm'.slots == vm.slots && c.entry == sp.(kpage := None)
  {
    if EvictChange(vm, i).Some? {
      EvictFits(vm, i);
      var c := EvictChange(vm, i).value;
      if c.slot.Some? {
        var s, vm' := c.slot.value, Apply(vm, c);
        assert 0 <= s < |vm.swap| && !vm.swap[s].filled && vm'.swap[s].filled;
        assert vm'.slots == vm.slots[s := vm'.slots[s]];
      }
    }
  }

  lemma VictimOnly(vm: VM, d: nat)
    requires Inv(vm) && AllFilled(vm) && vm.hand < |vm.frames| && 1 <= d <= |vm.frames| + 1
    requires d == FirstClear(Bits(vm), vm.hand, 1) && EvictPage(vm).Some?
    ensures EvictPage(vm).value.frames == vm.frames[Pos(vm.hand, d, |vm.frames|) := EMPTY_FRAME]
  {
    hide Inv, Shed, Bits, FirstClear;
    FilledMapped(Swept(vm, d), Swept(vm, d).hand);
  }

  /** A run: the final state and the bytes its loads delivered; None if it leaves the model. */
  ghost function Run(vm: VM, es: seq<Event>): (r: Option<(VM, seq<Byte>)>)
    requires Inv(vm)
    ensures r.Some? ==> Inv(r.value.0)
    decreases |es|
  {
    if es == [] then Some((vm, []))
    else if !Enabled(vm, es[0]) || !Step(vm, es[0]).0.Running? then None
    else
      var (next, byte) := Step(vm, es[0]);
      match Run(next.vm, es[1..])
      case None => None
      case Some((last, bytes)) => Some((last, Delivered(byte) + bytes))
  }

  function Delivered(byte: Option<Byte>): seq<Byte> {
    if byte.Some? then [byte.value] else []
  }

  function FlatRun(files: map<nat, seq<Byte>>, flat: Flat, es: seq<Event>): (Flat, seq<Byte>)
    decreases |es|
  {
    if es == [] then (flat, [])
    else
      var (last, bytes) := FlatRun(files, FlatStep(files, flat, es[0]), es[1..]);
      (last, Delivered(FlatByte(flat, es[0])) + bytes)
  }

  /** Paging is invisible: over every run of spawns, mappings, faults, accesses (with whatever
      evictions and swapping they cause) and exits, by any number of processes in any order,
      every load delivers the byte flat memory holds, and at the end the bytes kept for every
      page, in a frame, in its file, in swap or nowhere, are those of flat memory. */
  lemma {:induction false} PagingIsInvisible(vm: VM, es: seq<Event>, flat: Flat)
    requires Inv(vm) && Agrees(vm, flat) && Run(vm, es).Some?
    ensures Agrees(Run(vm, es).value.0, FlatRun(vm.files, flat, es).0)
    ensures Run(vm, es).value.1 == FlatRun(vm.files, flat, es).1
    decreases |es|
  {
    if es != [] {
      StepRefines(vm, es[0], flat);
      PagingIsInvisible(Step(vm, es[0]).0.vm, es[1..], FlatStep(vm.files, flat, es[0]));
    }
  }

  /** The state init_frametable and swaptable_init leave. */
  ghost function Boot(files: map<nat, seq<Byte>>, pool: seq<Page>, slots: seq<Page>): (vm: VM)
    requires |pool| > 0
    ensures Inv(vm) && Agrees(vm, map[])
  {
    VM(files, seq(|pool|, _ => EMPTY_FRAME), 0, seq(|pool|, _ => false), pool,
       seq(|slots|, _ => NO_META), slots, map[])
  }

  ghost predicate FrameFor(vm: VM, i: int, p: Pid, k: nat) {
    0 <= i < |vm.frames| && vm.frames[i] == MetaFrame(true, Some(k), Some(p))
  }

  /** Filled frames and resident pages match one to one. */
  ghost predicate FramesMatchPages(vm: VM) {
    && (forall i, p, k :: FrameFor(vm, i, p, k) ==> exists j :: Holds(vm, p, j, k))
    && (forall p, j, k :: Holds(vm, p, j, k) ==> exists i :: FrameFor(vm, i, p, k))
    && (forall p, j, p', j', k :: Holds(vm, p, j, k) && Holds(vm, p', j', k) ==> p == p' && j == j')
    && (forall i, p, i', p', k :: FrameFor(vm, i, p, k) && FrameFor(vm, i', p', k) ==> i == i')
    && (forall i :: 0 <= i < |vm.frames| ==>
          if vm.frames[i].filled then vm.frames[i].page.Some? && vm.frames[i].owner.Some?
          else vm.frames[i] == EMPTY_FRAME)
  }

  /** Swap slots in use and SWAP pages match one to one, and no SWAP page is resident. */
  ghost predicate SlotsMatchPages(vm: VM) {
    && (forall s :: 0 <= s < |vm.swap| ==> (vm.swap[s].filled <==> exists p, j :: OwnsSlot(vm, p, j, s)))
    && (forall p, j, s :: OwnsSlot(vm, p, j, s) ==> 0 <= s < |vm.swap|)
    && (forall p, j, p', j', s :: OwnsSlot(vm, p, j, s) && OwnsSlot(vm, p', j', s) ==> p == p' && j == j')
    && (forall p, j, s, k :: OwnsSlot(vm, p, j, s) ==> !Holds(vm, p, j, k))
  }

  lemma FramesMatch(vm: VM)
    requires Inv(vm)
    ensures FramesMatchPages(vm)
  {
    forall p, j, k | Holds(vm, p, j, k) ensures exists i :: FrameFor(vm, i, p, k) {
      assert ResidentOk(vm, p, vm.procs[p], vm.procs[p].spt[j]);
      assert FrameFor(vm, FindFrame(vm.frames, k).value, p, k);
    }
    forall i, p, k | FrameFor(vm, i, p, k) ensures exists j :: Holds(vm, p, j, k) {
      assert Holds(vm, p, FindKpage(vm.procs[p].spt, k).value, k);
    }
    forall p, j, p', j', k | Holds(vm, p, j, k) && Holds(vm, p', j', k) ensures p == p' && j == j' {
      var i :| FrameFor(vm, i, p, k);
      FilledMapped(vm, i);
      OneHolder(vm, i, p, j);
      OneHolder(vm, i, p', j');
    }
  }

  lemma SlotsMatch(vm: VM)
    requires Inv(vm)
    ensures SlotsMatchPages(vm)
  {
    forall p, j, s | OwnsSlot(vm, p, j, s)
      ensures 0 <= s < |vm.swap| && vm.swap[s].filled && vm.procs[p].spt[j].kpage == None
    {
      assert SwappedOk(vm, vm.procs[p].spt[j]) && ResidentOk(vm, p, vm.procs[p], vm.procs[p].spt[j]);
    }
  }

  /** Frames and slots are owned one to one in every state a run from boot reaches. */
  lemma ReachableOwnership(files: map<nat, seq<Byte>>, pool: seq<Page>, slots: seq<Page>, es: seq<Event>)
    requires |pool| > 0 && Run(Boot(files, pool, slots), es).Some?
    ensures FramesMatchPages(Run(Boot(files, pool, slots), es).value.0)
    ensures SlotsMatchPages(Run(Boot(files, pool, slots), es).value.0)
  {
    FramesMatch(Run(Boot(files, pool, slots), es).value.0);
    SlotsMatch(Run(Boot(files, pool, slots), es).value.0);
  }
}
