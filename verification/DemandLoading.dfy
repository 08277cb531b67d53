/** What a process finds in its pages: the bytes of its segments, what it may store to, and its growing stack. */
module DemandLoading {
  import opened Prelude
  import opened Clock
  import opened PagingState
  import opened PagingProofs
  import opened PagingRun
  import opened PagingTheorem
  import opened ElfSegment

  // ---------- the pages a process can load ----------

  /** A page that may or may not be written and, if `sound`, whose file bytes can be read. */
  datatype Kind = Kind(sound: bool, writable: bool)

  /** Page `u` of `p` exists and is of that kind. */
  predicate Loadable(vm: VM, p: Pid, u: nat, kind: Kind) {
    && p in vm.procs
    && var at := FindUpage(vm.procs[p].spt, u);
       && at.Some? && vm.procs[p].spt[at.value].writable == kind.writable
       && (kind.sound ==> FileBytesExist(vm.files, vm.procs[p].spt[at.value]))
  }

  lemma LoadableSame(vm: VM, vm': VM, p: Pid, u: nat, kind: Kind)
    requires SameView(vm, vm') && Loadable(vm, p, u, kind)
    ensures Loadable(vm', p, u, kind)
  {
    hide View;
    SameFind(vm, vm', p, u);
    var j := FindUpage(vm.procs[p].spt, u).value;
    assert Ref(vm, p, j) && SamePage(vm.procs[p].spt[j], vm'.procs[p].spt[j]);
  }

  lemma LoadableGrown(vm: VM, q: Pid, sp: SpInfo, p: Pid, u: nat, kind: Kind)
    requires q in vm.procs && Loadable(vm, p, u, kind)
    ensures Loadable(AddEntry(vm, q, sp), p, u, kind)
  {
    FindUpageAppend(vm.procs[p].spt, sp, u);
  }

  lemma LoadableResolve(vm: VM, q: Pid, addr: nat, esp: nat, write: bool, i: nat, p: Pid, u: nat, kind: Kind)
    requires Inv(vm) && Absent(vm, q, addr / PGSIZE) && i < |vm.frames| && !vm.frames[i].filled
    requires Loadable(vm, p, u, kind) && Resolve(vm, q, addr, esp, write, i).Running?
    ensures Loadable(Resolve(vm, q, addr, esp, write, i).vm, p, u, kind)
  {
    hide Inv, LoadPage, SameView, Loadable, FileBytesExist, Usable;
    var vm' := Resolve(vm, q, addr, esp, write, i).vm;
    var sp := StackEntry(addr / PGSIZE);
    if FindUpage(vm.procs[q].spt, addr / PGSIZE).Some? {
      LoadableSame(vm, vm', p, u, kind);
    } else {
      AddKeeps(vm, q, sp);
      LoadableGrown(vm, q, sp, p, u, kind);
      LoadableSame(AddEntry(vm, q, sp), vm', p, u, kind);
    }
  }

  lemma LoadableMakePresent(vm: VM, q: Pid, addr: nat, esp: nat, write: bool, p: Pid, u: nat, kind: Kind)
    requires Inv(vm) && q in vm.procs && Loadable(vm, p, u, kind)
    requires MakePresent(vm, q, addr, esp, write).Running?
    ensures Loadable(MakePresent(vm, q, addr, esp, write).vm, p, u, kind)
  {
    hide Inv, ClaimFrame, Resolve, Absent, Usable, Loadable, SameView;
    if !Present(vm, q, addr / PGSIZE) {
      NotPresentAbsent(vm, q, addr / PGSIZE);
      var (vm1, i) := ClaimFrame(vm).value;
      ShedAbsent(vm, vm1, q, addr / PGSIZE);
      LoadableSame(vm, vm1, p, u, kind);
      LoadableResolve(vm1, q, addr, esp, write, i, p, u, kind);
    }
  }

  lemma LoadableStack(vm: VM, q: Pid, v: nat, p: Pid, u: nat, kind: Kind)
    requires Inv(vm) && q in vm.procs && FindUpage(vm.procs[q].spt, v) == None && Loadable(vm, p, u, kind)
    requires NewStack(vm, q, v).Running?
    ensures Loadable(NewStack(vm, q, v).vm, p, u, kind)
  {
    hide Inv, ClaimFrame, LoadPage, Usable, Loadable, SameView, FileBytesExist;
    var sp := StackEntry(v);
    AddKeeps(vm, q, sp);
    LoadableGrown(vm, q, sp, p, u, kind);
    var grown, j := AddEntry(vm, q, sp), |vm.procs[q].spt|;
    var (vm1, i) := ClaimFrame(grown).value;
    LoadableSame(grown, vm1, p, u, kind);
    ClaimedEntry(grown, vm1, q, j);
    LoadableSame(vm1, LoadPage(vm1, q, j, i, false).vm, p, u, kind);
  }

  lemma ClaimedEntry(vm: VM, vm1: VM, q: Pid, j: nat)
    requires Shed(vm, vm1) && Ref(vm, q, j) && vm.procs[q].spt[j].kpage == None
    ensures Ref(vm1, q, j) && vm1.procs[q].spt[j] == vm.procs[q].spt[j]
  {
  }

  /** Only its own exit takes a page away from a process. */
  lemma LoadableStep(vm: VM, e: Event, p: Pid, u: nat, kind: Kind)
    requires Inv(vm) && Enabled(vm, e) && Step(vm, e).0.Running?
    requires Loadable(vm, p, u, kind) && e != Leave(p)
    ensures Loadable(Step(vm, e).0.vm, p, u, kind)
  {
    hide Inv, MakePresent, NewStack, Usable, FileBytesExist;
    match e
    case Spawn(_) =>
    case MapFile(q, _, _, _, _, _) => LoadableGrown(vm, q, Entry(e), p, u, kind);
    case SetupStack(q) => LoadableStack(vm, q, STACK_TOP, p, u, kind);
    case Leave(q) =>
    case PageIn(q, addr, esp, write) => LoadableMakePresent(vm, q, addr, esp, write, p, u, kind);
    case Access(q, addr, esp, op) => LoadableMakePresent(vm, q, addr, esp, op.Store?, p, u, kind);
  }

  // ---------- how a load can end ----------

  /** Every frame and every swap slot is taken. */
  ghost predicate Exhausted(vm: VM) {
    AllFilled(vm) && forall s :: 0 <= s < |vm.swap| ==> vm.swap[s].filled
  }

  lemma {:induction false} SweptSwap(vm: VM, m: nat)
    requires Inv(vm) && AllFilled(vm) && m <= |vm.frames| + 1
    ensures Swept(vm, m).swap == vm.swap
  {
    hide Inv, Shed, FrameMapped, FramePte, FrameEntry, FrameOwner, FrameIndex;
    HandInRange(vm);
    if m > 0 {
      SweptSwap(vm, m - 1);
      var prev, i := Swept(vm, m - 1), Pos(vm.hand, m, |vm.frames|);
      assert prev.frames[i].filled;
      SweepSwap(prev, i);
    }
  }

  lemma SweepSwap(vm: VM, i: nat)
    requires Inv(vm) && i < |vm.frames| && vm.frames[i].filled
    ensures SweepTo(vm, i).swap == vm.swap
  {
    FilledMapped(vm, i);
  }

  /** next_empty_frame panics only when memory and swap are both full. */
  lemma ClaimFailsWhenFull(vm: VM)
    requires Inv(vm) && ClaimFrame(vm).None?
    ensures Exhausted(vm)
  {
    hide Inv, Shed, Swept, Bits, FrameMapped, FrameEntry, FramePte, Accessed;
    HandInRange(vm);
    SweptSwap(vm, FirstClear(Bits(vm), vm.hand, 1));
  }

  /** A load from a page that exists is never refused and, if the page is sound, panics only when
      there is no room for it. */
  lemma LoadOutcome(vm: VM, p: Pid, a: nat, esp: nat, kind: Kind)
    requires Inv(vm) && Loadable(vm, p, a / PGSIZE, kind) && a < PHYS_BASE
    ensures var r := Step(vm, Access(p, a, esp, Load)).0;
            !r.Killed? && (kind.sound ==> (r.Running? <==> Present(vm, p, a / PGSIZE) || ClaimFrame(vm).Some?))
    ensures kind.sound && Step(vm, Access(p, a, esp, Load)).0.Panicked? ==> Exhausted(vm)
  {
    hide Inv, Usable, SameView;
    if !Present(vm, p, a / PGSIZE) {
      NotPresentAbsent(vm, p, a / PGSIZE);
      if ClaimFrame(vm).None? {
        ClaimFailsWhenFull(vm);
      } else {
        var (vm1, i) := ClaimFrame(vm).value;
        ShedAbsent(vm, vm1, p, a / PGSIZE);
        LoadableSame(vm, vm1, p, a / PGSIZE, kind);
      }
    }
  }

  lemma PresentWritable(vm: VM, p: Pid, u: nat, kind: Kind)
    requires Inv(vm) && Loadable(vm, p, u, kind) && Present(vm, p, u)
    ensures vm.procs[p].pd[u].writable == kind.writable
  {
    assert DirectoryOk(vm.procs[p]);
    var j := FindUpage(vm.procs[p].spt, u).value;
    assert Ref(vm, p, j) && ResidentOk(vm, p, vm.procs[p], vm.procs[p].spt[j]);
  }

  /** A store to a page that exists goes through only if the page may be written, and is refused only if it
      may not. It panics only when there is no room or, where it is allowed, the page cannot be read. */
  lemma StoreOutcome(vm: VM, p: Pid, a: nat, esp: nat, b: Byte, kind: Kind)
    requires Inv(vm) && Loadable(vm, p, a / PGSIZE, kind) && a < PHYS_BASE
    ensures var r := Step(vm, Access(p, a, esp, Store(b))).0;
            && (r.Running? ==> kind.writable) && (r.Killed? ==> !kind.writable)
            && (r.Panicked? ==> Exhausted(vm) || (kind.writable && !kind.sound))
  {
    hide Inv, Usable, SameView, Exhausted;
    if ClaimFrame(vm).None? { ClaimFailsWhenFull(vm); }
    if Present(vm, p, a / PGSIZE) {
      PresentWritable(vm, p, a / PGSIZE, kind);
    } else {
      NotPresentAbsent(vm, p, a / PGSIZE);
      if ClaimFrame(vm).Some? {
        var (vm1, i) := ClaimFrame(vm).value;
        ShedAbsent(vm, vm1, p, a / PGSIZE);
        LoadableSame(vm, vm1, p, a / PGSIZE, kind);
      }
    }
  }

  // ---------- runs ----------

  lemma {:induction false} RunAppend(vm: VM, es: seq<Event>, es': seq<Event>)
    requires Inv(vm) && Run(vm, es).Some?
    ensures var (mid, bytes) := Run(vm, es).value;
            Run(vm, es + es') == match Run(mid, es')
                                 case None => None
                                 case Some((last, bytes')) => Some((last, bytes + bytes'))
    decreases |es|
  {
    hide Inv, Enabled, Step;
    if es == [] {
      assert es + es' == es';
      if Run(vm, es').Some? {
        assert [] + Run(vm, es').value.1 == Run(vm, es').value.1;
      }
    } else {
      assert (es + es')[0] == es[0] && (es + es')[1..] == es[1..] + es';
      var (next, byte) := Step(vm, es[0]);
      RunAppend(next.vm, es[1..], es');
      var (mid, bytes) := Run(next.vm, es[1..]).value;
      if Run(mid, es').Some? {
        var bytes' := Run(mid, es').value.1;
        assert Delivered(byte) + (bytes + bytes') == Delivered(byte) + bytes + bytes';
      }
    }
  }

  /** `p` stays, and does not store at `a`. */
  predicate Untouched(es: seq<Event>, p: Pid, a: nat) {
    forall k :: 0 <= k < |es| ==>
      es[k] != Leave(p) && !(es[k].Access? && es[k].p == p && es[k].addr == a && es[k].op.Store?)
  }

  /** An event changes the byte at `a` in flat memory only by storing there or by ending the process:
      the kernel never maps over a page that exists. */
  lemma FlatByteStays(vm: VM, flat: Flat, e: Event, p: Pid, a: nat, kind: Kind)
    requires Enabled(vm, e) && Loadable(vm, p, a / PGSIZE, kind) && (p, a / PGSIZE) in flat
    requires Untouched([e], p, a)
    ensures var flat' := FlatStep(vm.files, flat, e);
            (p, a / PGSIZE) in flat' && flat'[(p, a / PGSIZE)][a % PGSIZE] == flat[(p, a / PGSIZE)][a % PGSIZE]
  {
    assert [e][0] == e;
    if e.Access? && e.p == p && e.addr / PGSIZE == a / PGSIZE && e.op.Store? {
      assert e.addr % PGSIZE != a % PGSIZE;
    }
  }

  lemma {:induction false} StillThere(vm: VM, flat: Flat, es: seq<Event>, p: Pid, a: nat, kind: Kind)
    requires Inv(vm) && Agrees(vm, flat) && Loadable(vm, p, a / PGSIZE, kind) && (p, a / PGSIZE) in flat
    requires Run(vm, es).Some? && Untouched(es, p, a)
    ensures var (vm', flat') := (Run(vm, es).value.0, FlatRun(vm.files, flat, es).0);
            && Agrees(vm', flat') && Loadable(vm', p, a / PGSIZE, kind) && (p, a / PGSIZE) in flat'
            && flat'[(p, a / PGSIZE)][a % PGSIZE] == flat[(p, a / PGSIZE)][a % PGSIZE]
    decreases |es|
  {
    hide Inv, Enabled, Step, FlatStep, Agrees, Loadable;
    if es != [] {
      assert Untouched([es[0]], p, a) && Untouched(es[1..], p, a);
      StepRefines(vm, es[0], flat);
      LoadableStep(vm, es[0], p, a / PGSIZE, kind);
      FlatByteStays(vm, flat, es[0], p, a, kind);
      StillThere(Step(vm, es[0]).0.vm, FlatStep(vm.files, flat, es[0]), es[1..], p, a, kind);
    }
  }

  lemma {:induction false} LoadableRun(vm: VM, es: seq<Event>, p: Pid, u: nat, kind: Kind)
    requires Inv(vm) && Loadable(vm, p, u, kind) && Run(vm, es).Some? && Leave(p) !in es
    ensures Loadable(Run(vm, es).value.0, p, u, kind)
    decreases |es|
  {
    hide Inv, Enabled, Step, Loadable;
    if es != [] {
      assert es[0] in es && Leave(p) !in es[1..];
      LoadableStep(vm, es[0], p, u, kind);
      LoadableRun(Step(vm, es[0]).0.vm, es[1..], p, u, kind);
    }
  }

  // ---------- mapping a segment ----------

  function PageEntries(file: nat, ph: Phdr, m: nat): seq<SpInfo> {
    seq(m, i requires 0 <= i < m => PageEntry(file, ph, i))
  }

  /** None of the segment's pages is in use. */
  predicate Unmapped(vm: VM, p: Pid, ph: Phdr)
    requires p in vm.procs
  {
    forall u: nat :: ph.vaddr / PGSIZE <= u < ph.vaddr / PGSIZE + PageCount(ph) ==>
      FindUpage(vm.procs[p].spt, u) == None
  }

  /** The state once `m` pages are mapped: only `p`'s table has grown. */
  function Mapped(vm: VM, p: Pid, file: nat, ph: Phdr, m: nat): VM
    requires p in vm.procs
  {
    vm.(procs := vm.procs[p := vm.procs[p].(spt := vm.procs[p].spt + PageEntries(file, ph, m))])
  }

  /** load_segment neither fails nor touches a page: it appends the entries and nothing else. */
  lemma {:induction false} SegmentMaps(vm: VM, p: Pid, file: nat, ph: Phdr, m: nat)
    requires Inv(vm) && p in vm.procs && Unmapped(vm, p, ph) && m <= PageCount(ph)
    ensures Run(vm, MapEvents(p, file, ph, m)) == Some((Mapped(vm, p, file, ph, m), []))
  {
    hide Inv, FindUpage, Unmapped, Step, Run;
    if m == 0 {
      RunsNothing(vm);
      assert vm.procs[p].spt + PageEntries(file, ph, 0) == vm.procs[p].spt;
      assert Mapped(vm, p, file, ph, 0).procs == vm.procs;
    } else {
      SegmentMaps(vm, p, file, ph, m - 1);
      var vm1, sp := Mapped(vm, p, file, ph, m - 1), PageEntry(file, ph, m - 1);
      var e := MapFile(p, file, sp.fileOffset, sp.bytesToRead, ph.writable, sp.upage);
      NextUnmapped(vm, p, file, ph, m);
      MapsOne(vm1, e);
      assert MapEvents(p, file, ph, m) == MapEvents(p, file, ph, m - 1) + [e];
      MappedNext(vm, p, file, ph, m);
      RunsBoth(vm, MapEvents(p, file, ph, m - 1), vm1, [e], Mapped(vm, p, file, ph, m));
    }
  }

  lemma RunsBoth(vm: VM, es: seq<Event>, vm1: VM, es': seq<Event>, vm2: VM)
    requires Inv(vm) && Run(vm, es) == Some((vm1, [])) && Inv(vm1) && Run(vm1, es') == Some((vm2, []))
    ensures Run(vm, es + es') == Some((vm2, []))
  {
    hide Inv, Run;
    RunAppend(vm, es, es');
    var none: seq<Byte> := [];
    assert none + none == none;
  }

  lemma MappedNext(vm: VM, p: Pid, file: nat, ph: Phdr, m: nat)
    requires p in vm.procs && m > 0
    ensures AddEntry(Mapped(vm, p, file, ph, m - 1), p, PageEntry(file, ph, m - 1)) == Mapped(vm, p, file, ph, m)
  {
    assert PageEntries(file, ph, m - 1) + [PageEntry(file, ph, m - 1)] == PageEntries(file, ph, m);
    assert vm.procs[p].spt + PageEntries(file, ph, m - 1) + [PageEntry(file, ph, m - 1)]
        == vm.procs[p].spt + PageEntries(file, ph, m);
    assert AddEntry(Mapped(vm, p, file, ph, m - 1), p, PageEntry(file, ph, m - 1)).procs
        == Mapped(vm, p, file, ph, m).procs;
  }

  lemma NextUnmapped(vm: VM, p: Pid, file: nat, ph: Phdr, m: nat)
    requires p in vm.procs && Unmapped(vm, p, ph) && 0 < m <= PageCount(ph)
    ensures FindUpage(Mapped(vm, p, file, ph, m - 1).procs[p].spt, ph.vaddr / PGSIZE + (m - 1)) == None
  {
    var spt, u := Mapped(vm, p, file, ph, m - 1).procs[p].spt, ph.vaddr / PGSIZE + (m - 1);
    assert FindUpage(vm.procs[p].spt, u) == None;
    forall j | 0 <= j < |spt| ensures spt[j].upage != u {}
  }

  lemma MapsOne(vm: VM, e: Event)
    requires Inv(vm) && e.MapFile? && Enabled(vm, e)
    ensures Run(vm, [e]) == Some((AddEntry(vm, e.p, Entry(e)), []))
  {
    hide Inv;
    AddKeeps(vm, e.p, Entry(e));
    RunsNothing(AddEntry(vm, e.p, Entry(e)));
    assert [e][1..] == [] && [e][0] == e;
    assert Delivered(None) + [] == [];
    assert Step(vm, e) == (Running(AddEntry(vm, e.p, Entry(e))), None);
  }

  lemma RunsNothing(vm: VM)
    requires Inv(vm)
    ensures Run(vm, []) == Some((vm, []))
  {
  }

  // ---------- loading a segment on demand ----------

  /** The executable and its segment, as load accepts them, with all file bytes there. */
  predicate Loads(files: map<nat, seq<Byte>>, file: nat, ph: Phdr) {
    && file in files && |files[file]| <= INT_MAX
    && ValidateSegment(ph, |files[file]|) && ph.offset + ph.filesz <= |files[file]|
  }

  /** The file offset recorded for the page of `a` fits off_t. */
  predicate Seekable(ph: Phdr, a: nat) {
    ph.offset - ph.offset % PGSIZE + (a / PGSIZE - ph.vaddr / PGSIZE) * PGSIZE <= INT_MAX
  }

  /** What a page of a segment whose bytes are all in the file is. */
  function PageKind(ph: Phdr, a: nat): Kind { Kind(Seekable(ph, a), ph.writable) }

  /** If all the segment's bytes are in the file, a page of it can be read exactly when its offset fits off_t. */
  lemma EntryReadable(files: map<nat, seq<Byte>>, file: nat, ph: Phdr, i: nat)
    requires Loads(files, file, ph)
    ensures FileBytesExist(files, PageEntry(file, ph, i)) <==> PageEntry(file, ph, i).fileOffset <= INT_MAX
  {
  }

  /** There are such pages: a valid segment of one file byte and 2 GB of zeros, at an address of it. */
  lemma OffsetOverflows()
    ensures var ph := Phdr(0, 0x1000, 1, 0x8000_2000, true);
            && Loads(map[0 := [0x7f]], 0, ph) && ph.vaddr <= 0x8000_1000 < ph.vaddr + ph.memsz
            && !Seekable(ph, 0x8000_1000)
  {
  }

  lemma MappedEntry(vm: VM, p: Pid, file: nat, ph: Phdr, i: nat)
    requires p in vm.procs && Unmapped(vm, p, ph) && i < PageCount(ph)
    ensures var spt := Mapped(vm, p, file, ph, PageCount(ph)).procs[p].spt;
            var at := FindUpage(spt, ph.vaddr / PGSIZE + i);
            at.Some? && spt[at.value] == PageEntry(file, ph, i)
  {
    var before, entries := vm.procs[p].spt, PageEntries(file, ph, PageCount(ph));
    var u := ph.vaddr / PGSIZE + i;
    assert FindUpage(before, u) == None;
    assert (before + entries)[|before| + i] == entries[i];
    var at := FindUpage(before + entries, u).value;
    assert at >= |before| && (before + entries)[at] == entries[at - |before|];
  }

  lemma InSegment(ph: Phdr, fileLength: nat, a: nat)
    requires ValidateSegment(ph, fileLength) && ph.vaddr <= a < ph.vaddr + ph.memsz
    ensures a < PHYS_BASE && ph.vaddr / PGSIZE <= a / PGSIZE < ph.vaddr / PGSIZE + PageCount(ph)
  {
    SegmentCovers(ph, fileLength);
  }

  lemma FileFault(vm: VM, p: Pid, a: nat, esp: nat, j: nat)
    requires Inv(vm) && p in vm.procs && a < PHYS_BASE && FindUpage(vm.procs[p].spt, a / PGSIZE) == Some(j)
    requires vm.procs[p].spt[j].kpage == None && vm.procs[p].spt[j].instructions == FILE
    ensures var r := Step(vm, Access(p, a, esp, Load)).0;
            && !r.Killed?
            && (r.Running? <==> ClaimFrame(vm).Some? && FileBytesExist(vm.files, vm.procs[p].spt[j]))
  {
    hide Inv, Usable, SameView, FileBytesExist, View, ClaimFrame, Touch;
    NotYetPresent(vm, p, a / PGSIZE, j);
    NotPresentAbsent(vm, p, a / PGSIZE);
    if ClaimFrame(vm).Some? {
      var (vm1, i) := ClaimFrame(vm).value;
      ShedAbsent(vm, vm1, p, a / PGSIZE);
      ShedFinds(vm, vm1, p, a / PGSIZE);
      ClaimedEntry(vm, vm1, p, j);
    }
  }

  lemma NotYetPresent(vm: VM, p: Pid, u: nat, j: nat)
    requires Inv(vm) && p in vm.procs && FindUpage(vm.procs[p].spt, u) == Some(j)
    requires vm.procs[p].spt[j].kpage == None
    ensures !Present(vm, p, u)
  {
    assert DirectoryOk(vm.procs[p]);
  }

  lemma ShedFinds(vm: VM, vm1: VM, p: Pid, u: nat)
    requires Shed(vm, vm1) && p in vm.procs
    ensures p in vm1.procs && FindUpage(vm1.procs[p].spt, u) == FindUpage(vm.procs[p].spt, u)
    ensures vm1.files == vm.files
  {
    SameFind(vm, vm1, p, u);
  }

  /** Mapping a segment always goes through, and the first load from a page of it is never refused.
      The load panics exactly when no frame can be had, the file is too short for the page, or the
      page's file offset overflows off_t. */
  lemma FirstLoad(vm: VM, p: Pid, file: nat, ph: Phdr, a: nat, esp: nat)
    requires Inv(vm) && p in vm.procs && Unmapped(vm, p, ph)
    requires file in vm.files && ValidateSegment(ph, |vm.files[file]|)
    requires ph.vaddr <= a < ph.vaddr + ph.memsz
    ensures Run(vm, MapEvents(p, file, ph, PageCount(ph))).Some? && ph.vaddr / PGSIZE <= a / PGSIZE
    ensures var vm1, load := Run(vm, MapEvents(p, file, ph, PageCount(ph))).value.0, Access(p, a, esp, Load);
            var sp := PageEntry(file, ph, a / PGSIZE - ph.vaddr / PGSIZE);
            && Enabled(vm1, load) && !Step(vm1, load).0.Killed?
            && (Step(vm1, load).0.Running? <==> ClaimFrame(vm1).Some? && FileBytesExist(vm.files, sp))
  {
    hide Inv, Step, FileBytesExist, ClaimFrame, Unmapped, ValidateSegment, FindUpage, PageCount, MapEvents, Run;
    SegmentMaps(vm, p, file, ph, PageCount(ph));
    var vm1 := Mapped(vm, p, file, ph, PageCount(ph));
    InSegment(ph, |vm.files[file]|, a);
    MappedEntry(vm, p, file, ph, a / PGSIZE - ph.vaddr / PGSIZE);
    FileFault(vm1, p, a, esp, FindUpage(vm1.procs[p].spt, a / PGSIZE).value);
  }

  lemma SegmentLoadable(vm: VM, p: Pid, file: nat, ph: Phdr, a: nat)
    requires p in vm.procs && Unmapped(vm, p, ph) && Loads(vm.files, file, ph)
    requires ph.vaddr <= a < ph.vaddr + ph.memsz
    ensures a < PHYS_BASE && Loadable(Mapped(vm, p, file, ph, PageCount(ph)), p, a / PGSIZE, PageKind(ph, a))
  {
    hide FileBytesExist, Unmapped, ValidateSegment;
    InSegment(ph, |vm.files[file]|, a);
    MappedEntry(vm, p, file, ph, a / PGSIZE - ph.vaddr / PGSIZE);
    EntryReadable(vm.files, file, ph, a / PGSIZE - ph.vaddr / PGSIZE);
  }

  lemma LaterLoad(vm: VM, flat: Flat, p: Pid, a: nat, esp: nat, kind: Kind)
    requires Inv(vm) && Agrees(vm, flat) && Loadable(vm, p, a / PGSIZE, kind) && a < PHYS_BASE
    requires (p, a / PGSIZE) in flat
    ensures var load := Access(p, a, esp, Load);
            && Enabled(vm, load)
            && var (next, byte) := Step(vm, load);
               && (next.Running? ==> byte == Some(flat[(p, a / PGSIZE)][a % PGSIZE]))
               && (!next.Running? ==> next.Panicked? && (kind.sound ==> Exhausted(vm)))
  {
    hide Inv, Step, Agrees, Exhausted;
    LoadOutcome(vm, p, a, esp, kind);
    if Step(vm, Access(p, a, esp, Load)).0.Running? {
      StepRefines(vm, Access(p, a, esp, Load), flat);
    }
  }

  /** Demand loading equals loading at once. Map a valid segment and let anything happen, except that
      the process ends or stores at `a`: faults, evictions, other processes coming and going. A load
      from `a` is then never refused, panics only when memory and swap are both full or the page's file
      offset overflowed, and otherwise delivers the byte the program header prescribes. */
  lemma DemandLoadEqualsEager(vm: VM, flat: Flat, p: Pid, file: nat, ph: Phdr, es: seq<Event>, a: nat, esp: nat)
    requires Inv(vm) && Agrees(vm, flat)
    requires p in vm.procs && Unmapped(vm, p, ph) && Loads(vm.files, file, ph)
    requires ph.vaddr <= a < ph.vaddr + ph.memsz
    requires Run(vm, MapEvents(p, file, ph, PageCount(ph)) + es).Some? && Untouched(es, p, a)
    ensures var vm', load := Run(vm, MapEvents(p, file, ph, PageCount(ph)) + es).value.0, Access(p, a, esp, Load);
            && Enabled(vm', load)
            && var (next, byte) := Step(vm', load);
               && (next.Running? ==> byte == Some(SegmentByte(vm.files[file], ph, a)))
               && (!next.Running? ==> next.Panicked? && (Exhausted(vm') || !Seekable(ph, a)))
  {
    hide Inv, Step, Unmapped, ValidateSegment, Agrees, Exhausted, FlatStep, Loadable, Seekable, Enabled;
    var maps := MapEvents(p, file, ph, PageCount(ph));
    SegmentMaps(vm, p, file, ph, PageCount(ph));
    RunAppend(vm, maps, es);
    var vm1, flat1 := Mapped(vm, p, file, ph, PageCount(ph)), FlatRun(vm.files, flat, maps).0;
    PagingIsInvisible(vm, maps, flat);
    LazyEqualsEager(vm.files, flat, p, file, ph, a);
    SegmentLoadable(vm, p, file, ph, a);
    StillThere(vm1, flat1, es, p, a, PageKind(ph, a));
    LaterLoad(Run(vm1, es).value.0, FlatRun(vm.files, flat1, es).0, p, a, esp, PageKind(ph, a));
  }

  /** A store to a mapped segment, after any run in which its process has not ended, goes through only if
      the program header says writable and is refused only if it does not. */
  lemma SegmentStores(vm: VM, p: Pid, file: nat, ph: Phdr, es: seq<Event>, a: nat, esp: nat, b: Byte)
    requires Inv(vm) && p in vm.procs && Unmapped(vm, p, ph) && Loads(vm.files, file, ph)
    requires ph.vaddr <= a < ph.vaddr + ph.memsz
    requires Run(vm, MapEvents(p, file, ph, PageCount(ph)) + es).Some? && Leave(p) !in es
    ensures var vm' := Run(vm, MapEvents(p, file, ph, PageCount(ph)) + es).value.0;
            var store := Access(p, a, esp, Store(b));
            && Enabled(vm', store)
            && var next := Step(vm', store).0;
               && (next.Running? ==> ph.writable) && (next.Killed? ==> !ph.writable)
               && (next.Panicked? ==> Exhausted(vm') || (ph.writable && !Seekable(ph, a)))
  {
    hide Inv, Step, Unmapped, ValidateSegment, Exhausted, Seekable, Run;
    var maps := MapEvents(p, file, ph, PageCount(ph));
    SegmentMaps(vm, p, file, ph, PageCount(ph));
    RunAppend(vm, maps, es);
    var vm1 := Mapped(vm, p, file, ph, PageCount(ph));
    SegmentLoadable(vm, p, file, ph, a);
    LoadableRun(vm1, es, p, a / PGSIZE, PageKind(ph, a));
    StoreOutcome(Run(vm1, es).value.0, p, a, esp, b, PageKind(ph, a));
  }

  // ---------- the stack ----------

  lemma NoEntryAbsent(vm: VM, p: Pid, u: nat)
    requires Inv(vm) && p in vm.procs && FindUpage(vm.procs[p].spt, u) == None
    ensures !Present(vm, p, u) && Absent(vm, p, u)
  {
    assert DirectoryOk(vm.procs[p]);
  }

  /** Where there is no page and a frame can be had, a load or a store makes a stack page if it is at or
      above the stack pointer or where PUSH or PUSHA would store, and otherwise ends the process. */
  lemma StackGrows(vm: VM, p: Pid, addr: nat, esp: nat, write: bool)
    requires Inv(vm) && p in vm.procs && FindUpage(vm.procs[p].spt, addr / PGSIZE) == None
    requires addr < PHYS_BASE && esp < WORD && ClaimFrame(vm).Some?
    ensures var r := MakePresent(vm, p, addr, esp, write);
            if esp <= addr || esp == addr + 4 || esp == addr + 32 then
              r.Running? && Loadable(r.vm, p, addr / PGSIZE, Kind(true, true))
            else r.Killed?
  {
    var u := addr / PGSIZE;
    NoEntryAbsent(vm, p, u);
    hide Inv, SameView, Usable, ClaimFrame;
    var (vm1, i) := ClaimFrame(vm).value;
    ShedAbsent(vm, vm1, p, u);
    ShedFinds(vm, vm1, p, u);
    StackTest(addr, esp);
    if IsStackAccess(addr, esp) {
      AddKeeps(vm1, p, StackEntry(u));
      StackLoadable(vm1, p, u);
      LoadableSame(AddEntry(vm1, p, StackEntry(u)), MakePresent(vm, p, addr, esp, write).vm, p, u, Kind(true, true));
    }
  }

  lemma StackTest(addr: nat, esp: nat)
    requires addr < PHYS_BASE && esp < WORD
    ensures IsStackAccess(addr, esp) <==> esp <= addr || esp == addr + 4 || esp == addr + 32
  {
  }

  lemma StackLoadable(vm: VM, p: Pid, u: nat)
    requires p in vm.procs && FindUpage(vm.procs[p].spt, u) == None
    ensures Loadable(AddEntry(vm, p, StackEntry(u)), p, u, Kind(true, true))
  {
    var spt := vm.procs[p].spt + [StackEntry(u)];
    assert spt[|spt| - 1].upage == u;
    assert forall j :: 0 <= j < |vm.procs[p].spt| ==> spt[j] == vm.procs[p].spt[j];
  }

  /** A new stack page reads as zeros. */
  lemma NewStackIsZero(vm: VM, flat: Flat, p: Pid, addr: nat, esp: nat, write: bool, a: nat, esp': nat)
    requires Inv(vm) && Agrees(vm, flat) && p in vm.procs && FindUpage(vm.procs[p].spt, addr / PGSIZE) == None
    requires addr < PHYS_BASE && esp < WORD && MakePresent(vm, p, addr, esp, write).Running?
    requires a / PGSIZE == addr / PGSIZE
    ensures var vm' := MakePresent(vm, p, addr, esp, write).vm;
            Enabled(vm', Access(p, a, esp', Load)) && Step(vm', Access(p, a, esp', Load)).1 == Some(0)
  {
    hide Inv, Step, Agrees, Fault, Exhausted, Loadable;
    var vm', u := MakePresent(vm, p, addr, esp, write).vm, addr / PGSIZE;
    RunningClaims(vm, p, addr, esp, write);
    StackGrows(vm, p, addr, esp, write);
    NotInFlat(vm, flat, p, u);
    MakePresentRefines(vm, p, addr, esp, write, flat);
    LaterLoad(vm', WithPage(flat, p, u), p, a, esp', Kind(true, true));
    LoadRuns(vm', p, a, esp');
  }

  lemma RunningClaims(vm: VM, p: Pid, addr: nat, esp: nat, write: bool)
    requires Inv(vm) && p in vm.procs && FindUpage(vm.procs[p].spt, addr / PGSIZE) == None
    requires MakePresent(vm, p, addr, esp, write).Running?
    ensures ClaimFrame(vm).Some?
  {
    NoEntryAbsent(vm, p, addr / PGSIZE);
    hide Inv, ClaimFrame;
  }

  lemma NotInFlat(vm: VM, flat: Flat, p: Pid, u: nat)
    requires Agrees(vm, flat) && p in vm.procs && FindUpage(vm.procs[p].spt, u) == None
    ensures (p, u) !in flat
  {
  }

  lemma LoadRuns(vm: VM, p: Pid, a: nat, esp: nat)
    requires Inv(vm) && Usable(vm, p, a / PGSIZE, false) && p in vm.procs && a < PHYS_BASE
    ensures Step(vm, Access(p, a, esp, Load)).0.Running?
  {
    hide Inv;
  }

  /** setup_stack maps the page below PHYS_BASE: all of it reads as zeros and may be written. */
  lemma SetupStackIs(vm: VM, flat: Flat, p: Pid, a: nat, esp: nat)
    requires Inv(vm) && Agrees(vm, flat) && Enabled(vm, SetupStack(p)) && Step(vm, SetupStack(p)).0.Running?
    requires PHYS_BASE - PGSIZE <= a < PHYS_BASE
    ensures var vm' := Step(vm, SetupStack(p)).0.vm;
            && Loadable(vm', p, a / PGSIZE, Kind(true, true)) && Enabled(vm', Access(p, a, esp, Load))
            && var (next, byte) := Step(vm', Access(p, a, esp, Load));
               && (next.Running? ==> byte == Some(0)) && !next.Killed?
  {
    hide Inv, Agrees, Step, Exhausted, Loadable, NewStack;
    var vm' := Step(vm, SetupStack(p)).0.vm;
    SetupStep(vm, p);
    SetupLoadable(vm, p);
    StepRefines(vm, SetupStack(p), flat);
    LaterLoad(vm', flat[(p, a / PGSIZE) := ZERO_PAGE], p, a, esp, Kind(true, true));
  }

  lemma SetupStep(vm: VM, p: Pid)
    requires Inv(vm) && Enabled(vm, SetupStack(p))
    ensures Step(vm, SetupStack(p)).0 == NewStack(vm, p, STACK_TOP)
  {
    hide Inv, NewStack;
  }

  lemma SetupLoadable(vm: VM, p: Pid)
    requires Inv(vm) && Enabled(vm, SetupStack(p)) && NewStack(vm, p, STACK_TOP).Running?
    ensures Loadable(NewStack(vm, p, STACK_TOP).vm, p, PHYS_BASE / PGSIZE - 1, Kind(true, true))
  {
    hide Inv, ClaimFrame, LoadPage, Usable, Loadable, SameView, FileBytesExist;
    var sp, j := StackEntry(STACK_TOP), |vm.procs[p].spt|;
    AddKeeps(vm, p, sp);
    StackLoadable(vm, p, STACK_TOP);
    var grown := AddEntry(vm, p, sp);
    var (vm1, i) := ClaimFrame(grown).value;
    LoadableSame(grown, vm1, p, STACK_TOP, Kind(true, true));
    ClaimedEntry(grown, vm1, p, j);
    LoadableSame(vm1, LoadPage(vm1, p, j, i, false).vm, p, STACK_TOP, Kind(true, true));
  }
}
