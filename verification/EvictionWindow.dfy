/** evict_page saves a page before it unmaps it, with interrupts on: what a store in between is worth. */
module EvictionWindow {
  import opened Prelude
  import opened PagingState
  import opened PagingProofs
  import opened PagingRun
  import opened PagingTheorem

  /** The rest of the eviction `c` decided on earlier: the entry and the frame as `c` says, and the
      mapping as it is now, no longer present. */
  function Finish(vm: VM, c: Change): VM
    requires InRange(vm, c) && c.entry.upage in vm.procs[c.p].pd
  {
    Apply(vm, c.(pte := vm.procs[c.p].pd[c.entry.upage].(present := false)))
  }

  /** The state when the owner of the page stores after the bytes were saved and before the unmapping. */
  function LateStore(vm: VM, c: Change, off: nat, b: Byte): VM
    requires InRange(vm, c) && c.entry.upage in vm.procs[c.p].pd && off < PGSIZE
    requires Present(vm, c.p, c.entry.upage) && vm.procs[c.p].pd[c.entry.upage].kpage < |vm.mem|
  {
    Finish(Touch(vm, c.p, c.entry.upage, off, Store(b)), c)
  }

  lemma WindowOk(vm: VM, i: nat, c: Change)
    requires Inv(vm) && i < |vm.frames| && vm.frames[i].filled && FrameMapped(vm, i)
    requires EvictChange(vm, i) == Some(c)
    ensures InRange(vm, c) && c.entry.upage in vm.procs[c.p].pd && Present(vm, c.p, c.entry.upage)
    ensures vm.procs[c.p].pd[c.entry.upage].kpage == c.k < |vm.mem|
    ensures c.p == FrameOwner(vm, i) && c.entry.upage == FrameEntry(vm, i).upage
  {
    FilledMapped(vm, i);
    EvictFits(vm, i);
  }

  /** But for bits of a mapping that is gone, the state is the one without the store. */
  lemma LateStoreState(vm: VM, c: Change, off: nat, b: Byte)
    requires InRange(vm, c) && c.entry.upage in vm.procs[c.p].pd && off < PGSIZE
    requires Present(vm, c.p, c.entry.upage) && vm.procs[c.p].pd[c.entry.upage].kpage == c.k
    ensures var late, none := LateStore(vm, c, off, b), Apply(vm, c);
            && late.(procs := none.procs) == none && late.procs.Keys == none.procs.Keys
            && forall q :: q in none.procs ==> late.procs[q].spt == none.procs[q].spt
  {
    var late, none := LateStore(vm, c, off, b), Apply(vm, c);
    assert late.mem == none.mem;
  }

  /** A store in the window is lost: processes see what they saw before it. So they see what flat
      memory holds after it exactly when it changed nothing. */
  lemma StoreInWindow(vm: VM, flat: Flat, i: nat, c: Change, addr: nat, esp: nat, b: Byte)
    requires Inv(vm) && Agrees(vm, flat) && i < |vm.frames| && vm.frames[i].filled && FrameMapped(vm, i)
    requires EvictChange(vm, i) == Some(c) && addr / PGSIZE == c.entry.upage
    ensures InRange(vm, c) && c.entry.upage in vm.procs[c.p].pd && Present(vm, c.p, c.entry.upage)
    ensures vm.procs[c.p].pd[c.entry.upage].kpage < |vm.mem| && (c.p, addr / PGSIZE) in flat
    ensures var late := LateStore(vm, c, addr % PGSIZE, b);
            var flat' := FlatStep(vm.files, flat, Access(c.p, addr, esp, Store(b)));
            && Agrees(late, flat)
            && (Agrees(late, flat') <==> flat[(c.p, addr / PGSIZE)][addr % PGSIZE] == b)
  {
    hide Inv, EvictChange, FrameMapped, Agrees, InRange, LateStore;
    WindowOk(vm, i, c);
    LateStoreLost(vm, flat, i, c, addr % PGSIZE, b);
    StoreMatters(LateStore(vm, c, addr % PGSIZE, b), flat, c.p, c.j, addr % PGSIZE, b);
  }

  lemma LateStoreLost(vm: VM, flat: Flat, i: nat, c: Change, off: nat, b: Byte)
    requires Inv(vm) && Agrees(vm, flat) && i < |vm.frames| && vm.frames[i].filled && FrameMapped(vm, i)
    requires EvictChange(vm, i) == Some(c) && off < PGSIZE
    requires InRange(vm, c) && c.entry.upage in vm.procs[c.p].pd && Present(vm, c.p, c.entry.upage)
    requires vm.procs[c.p].pd[c.entry.upage].kpage == c.k
    ensures var late := LateStore(vm, c, off, b);
            Agrees(late, flat) && Ref(late, c.p, c.j) && late.procs[c.p].spt[c.j] == c.entry
  {
    hide Inv, EvictChange, Agrees, Shed, FrameMapped, View;
    EvictKeeps(vm, i);
    AgreesSame(vm, Apply(vm, c), flat);
    LateStoreState(vm, c, off, b);
    AgreesOnTables(Apply(vm, c), LateStore(vm, c, off, b), flat);
  }

  lemma StoreMatters(vm: VM, flat: Flat, p: Pid, j: int, off: nat, b: Byte)
    requires Agrees(vm, flat) && Ref(vm, p, j) && off < PGSIZE
    ensures var at := (p, vm.procs[p].spt[j].upage);
            at in flat && (Agrees(vm, flat[at := flat[at][off := b]]) <==> flat[at][off] == b)
  {
    var at := (p, vm.procs[p].spt[j].upage);
    var flat' := flat[at := flat[at][off := b]];
    if flat[at][off] == b {
      assert flat[at][off := b] == flat[at];
      assert flat' == flat;
    } else {
      assert flat'[at] != View(vm, p, j);
    }
  }

  lemma AgreesOnTables(vm: VM, vm': VM, flat: Flat)
    requires Agrees(vm, flat) && vm'.(procs := vm.procs) == vm && vm'.procs.Keys == vm.procs.Keys
    requires forall q :: q in vm.procs ==> vm'.procs[q].spt == vm.procs[q].spt
    ensures Agrees(vm', flat)
  {
    forall q, j | Ref(vm', q, j) ensures Ref(vm, q, j) && View(vm', q, j) == View(vm, q, j) {}
  }
}
