module PagingProofs {
  import opened Prelude
  import opened PagingState

  ghost predicate Holds(vm: VM, p: Pid, j: int, k: nat) {
    Ref(vm, p, j) && vm.procs[p].spt[j].kpage == Some(k)
  }

  /** Nobody but the changed page uses the change's pool page or swap slot. */
  ghost predicate Exclusive(vm: VM, c: Change) {
    && (forall p, j :: Holds(vm, p, j, c.k) ==> p == c.p && j == c.j)
    && (c.slot.Some? ==> forall p, j :: OwnsSlot(vm, p, j, c.slot.value) ==> p == c.p && j == c.j)
  }

  /** The change treats frame and pool page alike. */
  ghost predicate FrameStep(vm: VM, c: Change)
    requires InRange(vm, c)
  {
    && vm.frames[c.i].filled == vm.used[c.k]
    && (vm.frames[c.i].filled ==> vm.frames[c.i].page == Some(c.k))
    && c.frame == (if c.frame.filled then MetaFrame(true, Some(c.k), Some(c.p)) else EMPTY_FRAME)
    && (vm.used[c.k] ==> FrameMapped(vm, c.i) && FrameOwner(vm, c.i) == c.p && FrameIndex(vm, c.i) == c.j)
  }

  ghost predicate EntryStep(vm: VM, c: Change)
    requires InRange(vm, c)
  {
    var sp := vm.procs[c.p].spt[c.j];
    && c.entry.upage == sp.upage && c.entry.writable == sp.writable
    && c.entry.file == sp.file && c.entry.fileOffset == sp.fileOffset && c.entry.bytesToRead == sp.bytesToRead
    && c.entry.kpage == (if c.frame.filled then Some(c.k) else None)
    && c.pte.present == c.frame.filled
    && c.pte.kpage == c.k && c.pte.writable == sp.writable
    && (c.frame.filled ==> c.entry.instructions != SWAP)
    && (c.frame.filled ==> c.pte.dirty || c.page == Home(vm, c.entry))
    && (sp.kpage.Some? ==> sp.kpage == Some(c.k))
  }

  ghost predicate SlotStep(vm: VM, c: Change)
    requires InRange(vm, c)
  {
    var sp := vm.procs[c.p].spt[c.j];
    && (c.entry.instructions == SWAP ==> c.slot == Some(c.entry.swapIndex) && (c.meta.dirty || c.image == ZERO_PAGE))
    && (sp.instructions == SWAP ==> c.slot == Some(sp.swapIndex))
    && (c.slot.Some? ==> (c.meta.filled <==> c.entry.instructions == SWAP))
  }

  ghost predicate Fits(vm: VM, c: Change) {
    InRange(vm, c) && Exclusive(vm, c) && FrameStep(vm, c) && EntryStep(vm, c) && SlotStep(vm, c)
  }

  lemma ApplyShape(vm: VM, c: Change)
    requires InRange(vm, c)
    ensures Shape(Apply(vm, c))
    ensures forall p, j :: Ref(Apply(vm, c), p, j) <==> Ref(vm, p, j)
  {
  }

  lemma OtherEntry(vm: VM, c: Change, p: Pid, j: int)
    requires InRange(vm, c) && Ref(vm, p, j) && !(p == c.p && j == c.j)
    ensures Ref(Apply(vm, c), p, j) && Apply(vm, c).procs[p].spt[j] == vm.procs[p].spt[j]
  {
  }

  /** Frames of other pages keep their place and owner. */
  lemma OtherFrame(vm: VM, c: Change, k: nat)
    requires InRange(vm, c) && k != c.k
    requires vm.frames[c.i].page == None || vm.frames[c.i].page == Some(c.k)
    requires c.frame.page == None || c.frame.page == Some(c.k)
    ensures FindFrame(Apply(vm, c).frames, k) == FindFrame(vm.frames, k)
  {
    var a, b := FindFrame(vm.frames, k), FindFrame(Apply(vm, c).frames, k);
    if a.Some? {
      assert Apply(vm, c).frames[a.value] == vm.frames[a.value];
    }
    if b.Some? {
      assert Apply(vm, c).frames[b.value] == vm.frames[b.value];
    }
  }

  /** The parts of the invariant a change is checked against. */
  ghost predicate Tables(vm: VM) {
    Shape(vm) && TablesOk(vm) && TablesInjective(vm)
  }

  lemma OtherHome(vm: VM, c: Change, p: Pid, j: int)
    requires Fits(vm, c) && Ref(vm, p, j) && !(p == c.p && j == c.j)
    ensures Home(Apply(vm, c), vm.procs[p].spt[j]) == Home(vm, vm.procs[p].spt[j])
  {
    var sp := vm.procs[p].spt[j];
    if sp.instructions == SWAP && c.slot.Some? {
      assert OwnsSlot(vm, p, j, sp.swapIndex);
    }
  }

  lemma OtherView(vm: VM, c: Change, p: Pid, j: int)
    requires Fits(vm, c) && Ref(vm, p, j) && !(p == c.p && j == c.j)
    ensures Ref(Apply(vm, c), p, j) && View(Apply(vm, c), p, j) == View(vm, p, j)
  {
    OtherEntry(vm, c, p, j);
    OtherHome(vm, c, p, j);
    assert !Holds(vm, p, j, c.k);
  }

  lemma OtherSwapped(vm: VM, c: Change, p: Pid, j: int)
    requires Fits(vm, c) && Ref(vm, p, j) && !(p == c.p && j == c.j)
    requires SwappedOk(vm, vm.procs[p].spt[j])
    ensures SwappedOk(Apply(vm, c), vm.procs[p].spt[j])
  {
    ApplyShape(vm, c);
    var sp := vm.procs[p].spt[j];
    if sp.instructions == SWAP && c.slot.Some? {
      assert OwnsSlot(vm, p, j, sp.swapIndex);
    }
  }

  lemma OtherResident(vm: VM, c: Change, p: Pid, j: int)
    requires Fits(vm, c) && Ref(vm, p, j) && !(p == c.p && j == c.j)
    requires FramesOk(vm) && TablesInjective(vm)
    requires ResidentOk(vm, p, vm.procs[p], vm.procs[p].spt[j])
    ensures Ref(Apply(vm, c), p, j) && Shape(Apply(vm, c))
    ensures ResidentOk(Apply(vm, c), p, Apply(vm, c).procs[p], vm.procs[p].spt[j])
  {
    ApplyShape(vm, c);
    OtherEntry(vm, c, p, j);
    OtherHome(vm, c, p, j);
    assert !Holds(vm, p, j, c.k);
    var sp := vm.procs[p].spt[j];
    if sp.kpage.Some? {
      OtherFrame(vm, c, sp.kpage.value);
      assert FindFrame(vm.frames, sp.kpage.value).value != c.i;
      assert p == c.p ==> sp.upage != c.entry.upage;
    }
  }

  lemma SelfResident(vm: VM, c: Change)
    requires Fits(vm, c) && FramesOk(vm)
    ensures Shape(Apply(vm, c)) && Ref(Apply(vm, c), c.p, c.j)
    ensures Apply(vm, c).procs[c.p].spt[c.j] == c.entry
    ensures ResidentOk(Apply(vm, c), c.p, Apply(vm, c).procs[c.p], c.entry)
    ensures SwappedOk(Apply(vm, c), c.entry)
  {
    ApplyShape(vm, c);
    if c.frame.filled {
      var vm' := Apply(vm, c);
      assert vm'.frames[c.i].page == Some(c.k);
      forall i | 0 <= i < |vm.frames| && i != c.i
        ensures vm'.frames[i].page != Some(c.k)
      {
        if vm.frames[i].page == Some(c.k) {
          assert false;
        }
      }
      assert FindFrame(vm'.frames, c.k) == Some(c.i);
    }
  }

  lemma TablesKept(vm: VM, c: Change)
    requires Fits(vm, c) && FramesOk(vm) && Tables(vm)
    ensures Shape(Apply(vm, c)) && TablesOk(Apply(vm, c))
  {
    var vm' := Apply(vm, c);
    ApplyShape(vm, c);
    forall p, j | Ref(vm', p, j)
      ensures ResidentOk(vm', p, vm'.procs[p], vm'.procs[p].spt[j]) && SwappedOk(vm', vm'.procs[p].spt[j])
    {
      assert Ref(vm, p, j);
      if p == c.p && j == c.j {
        SelfResident(vm, c);
      } else {
        OtherEntry(vm, c, p, j);
        OtherSwapped(vm, c, p, j);
        OtherResident(vm, c, p, j);
      }
    }
  }

  lemma InjectiveKept(vm: VM, c: Change)
    requires Fits(vm, c) && TablesInjective(vm)
    ensures TablesInjective(Apply(vm, c))
  {
    var vm' := Apply(vm, c);
    forall p | p in vm'.procs
      ensures TableInjective(vm'.procs[p].spt)
    {
      assert TableInjective(vm.procs[p].spt);
      if p == c.p {
        forall j | 0 <= j < |vm.procs[p].spt| && j != c.j
          ensures vm.procs[p].spt[j].kpage != Some(c.k)
        {
          assert !Holds(vm, p, j, c.k);
        }
      }
    }
  }

  lemma DirectoriesKept(vm: VM, c: Change)
    requires Fits(vm, c) && TablesInjective(vm) && DirectoriesOk(vm)
    ensures DirectoriesOk(Apply(vm, c))
  {
    var vm' := Apply(vm, c);
    var proc, proc' := vm.procs[c.p], vm'.procs[c.p];
    assert DirectoryOk(proc) && TableInjective(proc.spt);
    forall u | u in proc'.pd && proc'.pd[u].present
      ensures FindUpage(proc'.spt, u).Some?
      ensures proc'.spt[FindUpage(proc'.spt, u).value].kpage == Some(proc'.pd[u].kpage)
    {
      var at := if u == c.entry.upage then c.j else FindUpage(proc.spt, u).value;
      assert proc'.spt[at].upage == u;
      assert FindUpage(proc'.spt, u) == Some(at);
    }
    forall p | p in vm'.procs ensures DirectoryOk(vm'.procs[p]) {
      if p != c.p { assert vm'.procs[p] == vm.procs[p]; }
    }
  }

  lemma FramesKept(vm: VM, c: Change)
    requires Fits(vm, c) && FramesOk(vm)
    ensures Shape(Apply(vm, c)) && FramesOk(Apply(vm, c))
  {
    var vm' := Apply(vm, c);
    ApplyShape(vm, c);
    forall i | 0 <= i < |vm'.frames| && vm'.frames[i].filled
      ensures vm'.frames[i].page.Some? && vm'.frames[i].page.value < |vm'.used|
      ensures vm'.used[vm'.frames[i].page.value]
      ensures vm'.frames[i].owner.Some? && vm'.frames[i].owner.value in vm'.procs
      ensures FindKpage(vm'.procs[vm'.frames[i].owner.value].spt, vm'.frames[i].page.value).Some?
      ensures i != c.i ==> vm'.frames[i].page != Some(c.k)
    {
      if i == c.i {
        assert vm'.procs[c.p].spt[c.j].kpage == Some(c.k);
      } else {
        var k, p := vm.frames[i].page.value, vm.frames[i].owner.value;
        var j := FindKpage(vm.procs[p].spt, k).value;
        if k == c.k {
          assert false;
        }
        if p == c.p && j == c.j {
          assert false;
        }
        OtherEntry(vm, c, p, j);
      }
    }
  }

  lemma PoolKept(vm: VM, c: Change)
    requires Fits(vm, c) && FramesOk(vm) && PoolOk(vm)
    ensures PoolOk(Apply(vm, c))
  {
    var vm' := Apply(vm, c);
    forall k | 0 <= k < |vm'.used| && vm'.used[k]
      ensures FindFrame(vm'.frames, k).Some?
    {
      if k == c.k {
        assert vm'.frames[c.i].page == Some(k);
      } else {
        OtherFrame(vm, c, k);
      }
    }
  }

  lemma SlotsKept(vm: VM, c: Change)
    requires Fits(vm, c) && SlotsOk(vm)
    ensures SlotsOk(Apply(vm, c))
  {
    var vm' := Apply(vm, c);
    ApplyShape(vm, c);
    forall s | 0 <= s < |vm'.swap| && vm'.swap[s].filled
      ensures exists p, j :: OwnsSlot(vm', p, j, s)
    {
      if c.slot == Some(s) {
        assert OwnsSlot(vm', c.p, c.j, s);
      } else {
        var p, j :| OwnsSlot(vm, p, j, s);
        OtherEntry(vm, c, p, j);
        assert OwnsSlot(vm', p, j, s);
      }
    }
    forall p, j, s | OwnsSlot(vm', p, j, s)
      ensures if p == c.p && j == c.j then c.slot == Some(s) else OwnsSlot(vm, p, j, s) && c.slot != Some(s)
    {
      if !(p == c.p && j == c.j) {
        OtherEntry(vm, c, p, j);
        assert OwnsSlot(vm, p, j, s);
      }
    }
  }

  /** A fitting change keeps the whole invariant. */
  lemma ApplyKeeps(vm: VM, c: Change)
    requires Inv(vm) && Fits(vm, c)
    ensures Inv(Apply(vm, c))
  {
    TablesKept(vm, c);
    InjectiveKept(vm, c);
    DirectoriesKept(vm, c);
    FramesKept(vm, c);
    PoolKept(vm, c);
    SlotsKept(vm, c);
  }

  /** Two entries for one page of one file, wherever its bytes are now. */
  predicate SamePage(sp: SpInfo, sp': SpInfo) {
    && sp'.upage == sp.upage && sp'.writable == sp.writable
    && sp'.file == sp.file && sp'.fileOffset == sp.fileOffset && sp'.bytesToRead == sp.bytesToRead
  }

  /** `vm'` holds the same pages with the same bytes as `vm`. */
  ghost predicate SameView(vm: VM, vm': VM) {
    && vm'.files == vm.files
    && vm'.procs.Keys == vm.procs.Keys
    && (forall p :: p in vm.procs ==> |vm'.procs[p].spt| == |vm.procs[p].spt|)
    && (forall p, j {:trigger vm'.procs[p].spt[j]} :: Ref(vm, p, j) ==>
          && SamePage(vm.procs[p].spt[j], vm'.procs[p].spt[j])
          && View(vm', p, j) == View(vm, p, j))
  }

  lemma SameViewTransitive(a: VM, b: VM, c: VM)
    requires SameView(a, b) && SameView(b, c)
    ensures SameView(a, c)
  {
    forall p, j | Ref(a, p, j)
      ensures View(c, p, j) == View(a, p, j)
      ensures SamePage(a.procs[p].spt[j], c.procs[p].spt[j])
    {
      assert Ref(b, p, j);
      assert SamePage(a.procs[p].spt[j], b.procs[p].spt[j]);
    }
  }

  /** Pages may have left memory, but nothing came in and no byte was lost. */
  ghost predicate Shed(vm: VM, vm': VM) {
    && SameView(vm, vm')
    && (forall p, j {:trigger vm'.procs[p].spt[j]} :: Ref(vm, p, j) && vm.procs[p].spt[j].kpage == None ==>
          vm'.procs[p].spt[j] == vm.procs[p].spt[j])
  }

  lemma ShedTransitive(a: VM, b: VM, c: VM)
    requires Shed(a, b) && Shed(b, c)
    ensures Shed(a, c)
  {
    SameViewTransitive(a, b, c);
    forall p, j | Ref(a, p, j) && a.procs[p].spt[j].kpage == None
      ensures c.procs[p].spt[j] == a.procs[p].spt[j]
    {
      assert Ref(b, p, j) && b.procs[p].spt[j] == a.procs[p].spt[j];
    }
  }

  lemma ApplySameView(vm: VM, c: Change)
    requires Fits(vm, c)
    requires Ref(Apply(vm, c), c.p, c.j) && View(Apply(vm, c), c.p, c.j) == View(vm, c.p, c.j)
    ensures SameView(vm, Apply(vm, c))
  {
    var vm' := Apply(vm, c);
    forall p, j | Ref(vm, p, j)
      ensures SamePage(vm.procs[p].spt[j], vm'.procs[p].spt[j])
      ensures View(vm', p, j) == View(vm, p, j)
    {
      if !(p == c.p && j == c.j) {
        OtherEntry(vm, c, p, j);
        OtherView(vm, c, p, j);
      }
    }
  }

  lemma ApplySheds(vm: VM, c: Change)
    requires Fits(vm, c) && vm.procs[c.p].spt[c.j].kpage.Some?
    requires Ref(Apply(vm, c), c.p, c.j) && View(Apply(vm, c), c.p, c.j) == View(vm, c.p, c.j)
    ensures Shed(vm, Apply(vm, c))
  {
    ApplySameView(vm, c);
    forall p, j | Ref(vm, p, j) && vm.procs[p].spt[j].kpage == None
      ensures Apply(vm, c).procs[p].spt[j] == vm.procs[p].spt[j]
    {
      OtherEntry(vm, c, p, j);
    }
  }

  // ---------- the changes the kernel makes ----------

  lemma FilledMapped(vm: VM, i: nat)
    requires Inv(vm) && i < |vm.frames| && vm.frames[i].filled
    ensures FrameMapped(vm, i)
    ensures FrameEntry(vm, i).kpage == vm.frames[i].page
    ensures ResidentOk(vm, FrameOwner(vm, i), vm.procs[FrameOwner(vm, i)], FrameEntry(vm, i))
  {
    var p, k := vm.frames[i].owner.value, vm.frames[i].page.value;
    var j := FindKpage(vm.procs[p].spt, k).value;
    assert ResidentOk(vm, p, vm.procs[p], vm.procs[p].spt[j]);
  }

  /** Only one page of one process is in any frame. */
  lemma OneHolder(vm: VM, i: nat, p: Pid, j: int)
    requires Inv(vm) && i < |vm.frames| && vm.frames[i].filled && FrameMapped(vm, i)
    requires Holds(vm, p, j, vm.frames[i].page.value)
    ensures p == FrameOwner(vm, i) && j == FrameIndex(vm, i)
  {
    var k := vm.frames[i].page.value;
    assert ResidentOk(vm, p, vm.procs[p], vm.procs[p].spt[j]);
    assert FindFrame(vm.frames, k) == Some(i);
    assert TableInjective(vm.procs[p].spt);
  }

  lemma RetouchFits(vm: VM, i: nat, pte: Pte, page: Page)
    requires Inv(vm) && i < |vm.frames| && vm.frames[i].filled && FrameMapped(vm, i)
    requires pte.present && pte.kpage == vm.frames[i].page.value && pte.writable == FrameEntry(vm, i).writable
    requires pte.dirty || page == Home(vm, FrameEntry(vm, i))
    ensures Fits(vm, Retouch(vm, i, pte, page))
  {
    FilledMapped(vm, i);
    var c := Retouch(vm, i, pte, page);
    forall p, j | Holds(vm, p, j, c.k) ensures p == c.p && j == c.j {
      OneHolder(vm, i, p, j);
    }
  }

  lemma EvictFits(vm: VM, i: nat)
    requires Inv(vm) && i < |vm.frames| && vm.frames[i].filled && FrameMapped(vm, i)
    requires EvictChange(vm, i).Some?
    ensures Fits(vm, EvictChange(vm, i).value)
  {
    FilledMapped(vm, i);
    var c := EvictChange(vm, i).value;
    forall p, j | Holds(vm, p, j, c.k) ensures p == c.p && j == c.j {
      OneHolder(vm, i, p, j);
    }
    if c.slot.Some? {
      forall p, j | Ref(vm, p, j) ensures !OwnsSlot(vm, p, j, c.slot.value) {
        assert SwappedOk(vm, vm.procs[p].spt[j]);
      }
    }
  }

  lemma EvictedView(vm: VM, i: nat, c: Change)
    requires FrameMapped(vm, i) && EvictChange(vm, i) == Some(c)
    requires FrameEntry(vm, i).kpage == vm.frames[i].page
    requires FramePte(vm, i).dirty || vm.mem[vm.frames[i].page.value] == Home(vm, FrameEntry(vm, i))
    ensures InRange(vm, c) && Ref(Apply(vm, c), c.p, c.j)
    ensures View(Apply(vm, c), c.p, c.j) == View(vm, c.p, c.j)
  {
  }

  /** Eviction: dirty and stack pages keep their bytes in swap, the others in their file or as zeros. */
  lemma EvictKeeps(vm: VM, i: nat)
    requires Inv(vm) && i < |vm.frames| && vm.frames[i].filled && FrameMapped(vm, i)
    requires EvictChange(vm, i).Some?
    ensures InRange(vm, EvictChange(vm, i).value)
    ensures Inv(Apply(vm, EvictChange(vm, i).value))
    ensures Shed(vm, Apply(vm, EvictChange(vm, i).value))
  {
    var c := EvictChange(vm, i).value;
    EvictFits(vm, i);
    ApplyKeeps(vm, c);
    FilledMapped(vm, i);
    EvictedView(vm, i, c);
    ApplySheds(vm, c);
  }

  lemma InstallFits(vm: VM, p: Pid, j: nat, i: nat, k: nat)
    requires Inv(vm) && Ref(vm, p, j) && vm.procs[p].spt[j].kpage == None
    requires i < |vm.frames| && !vm.frames[i].filled && k < |vm.used| && !vm.used[k]
    ensures SwappedOk(vm, vm.procs[p].spt[j])
    ensures Fits(vm, InstallChange(vm, p, j, i, k))
  {
    var sp := vm.procs[p].spt[j];
    assert SwappedOk(vm, sp);
    var c := InstallChange(vm, p, j, i, k);
    forall p', j' | Ref(vm, p', j') ensures !Holds(vm, p', j', k) {
      assert ResidentOk(vm, p', vm.procs[p'], vm.procs[p'].spt[j']);
    }
    if c.slot.Some? {
      assert OwnsSlot(vm, p, j, c.slot.value);
    }
  }

  /** Loading: the page comes back with the bytes it had. */
  lemma InstallKeeps(vm: VM, p: Pid, j: nat, i: nat, k: nat)
    requires Inv(vm) && Ref(vm, p, j) && vm.procs[p].spt[j].kpage == None
    requires i < |vm.frames| && !vm.frames[i].filled && k < |vm.used| && !vm.used[k]
    ensures SwappedOk(vm, vm.procs[p].spt[j])
    ensures InRange(vm, InstallChange(vm, p, j, i, k))
    ensures Inv(Apply(vm, InstallChange(vm, p, j, i, k)))
    ensures SameView(vm, Apply(vm, InstallChange(vm, p, j, i, k)))
  {
    InstallFits(vm, p, j, i, k);
    var c := InstallChange(vm, p, j, i, k);
    ApplyKeeps(vm, c);
    ApplySameView(vm, c);
  }

  lemma ClearKeeps(vm: VM, i: nat)
    requires Inv(vm) && i < |vm.frames| && vm.frames[i].filled && FrameMapped(vm, i)
    ensures Inv(ClearAccessed(vm, i)) && Shed(vm, ClearAccessed(vm, i))
    ensures ClearAccessed(vm, i).frames == vm.frames
  {
    FilledMapped(vm, i);
    var c := Retouch(vm, i, FramePte(vm, i).(accessed := false), vm.mem[vm.frames[i].page.value]);
    RetouchFits(vm, i, c.pte, c.page);
    ApplyKeeps(vm, c);
    ApplySheds(vm, c);
  }
}
