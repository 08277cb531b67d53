/**
 The state of demand paging: the frame table, the user page pool, the swap table
 and swap block, and, for every process, its supplemental page table and its page
 directory.  The step functions say what each kernel operation does to that state.
 */
module PagingState {
  import opened Prelude

  type Page = p: seq<Byte> | |p| == PGSIZE witness Fill(PGSIZE, 0)

  const ZERO_PAGE: Page := Fill(PGSIZE, 0)
  /** What palloc_free_multiple leaves behind in a freed page. */
  const DEAD_PAGE: Page := Fill(PGSIZE, 0xcc)

  type Pid = nat

  datatype LoadInstruction = USELESS | FILE | SWAP | STACK

  datatype SpInfo = SpInfo(
    file: nat, fileOffset: nat, bytesToRead: nat, writable: bool,
    upage: nat, kpage: Option<nat>, instructions: LoadInstruction, swapIndex: int)

  /** A page table entry; `kpage` is an index into the user pool. */
  datatype Pte = Pte(kpage: nat, present: bool, writable: bool, dirty: bool, accessed: bool)

  datatype Process = Process(spt: seq<SpInfo>, pd: map<nat, Pte>)

  datatype MetaFrame = MetaFrame(filled: bool, page: Option<nat>, owner: Option<Pid>)

  const EMPTY_FRAME := MetaFrame(false, None, None)

  datatype MetaSwap = MetaSwap(filled: bool, instructions: LoadInstruction, dirty: bool)

  datatype VM = VM(
    files: map<nat, seq<Byte>>,
    frames: seq<MetaFrame>, hand: nat,
    used: seq<bool>, mem: seq<Page>,
    swap: seq<MetaSwap>, slots: seq<Page>,
    procs: map<Pid, Process>)

  // ---------- searches ----------

  function FindUpage(spt: seq<SpInfo>, u: nat): (r: Option<nat>)
    ensures r.Some? ==> r.value < |spt| && spt[r.value].upage == u
    ensures r.Some? ==> forall j :: 0 <= j < r.value ==> spt[j].upage != u
    ensures r.None? ==> forall j :: 0 <= j < |spt| ==> spt[j].upage != u
  {
    FirstFrom(spt, (sp: SpInfo) => sp.upage == u, 0)
  }

  function FindKpage(spt: seq<SpInfo>, k: nat): (r: Option<nat>)
    ensures r.Some? ==> r.value < |spt| && spt[r.value].kpage == Some(k)
    ensures r.Some? ==> forall j :: 0 <= j < r.value ==> spt[j].kpage != Some(k)
    ensures r.None? ==> forall j :: 0 <= j < |spt| ==> spt[j].kpage != Some(k)
  {
    FirstFrom(spt, (sp: SpInfo) => sp.kpage == Some(k), 0)
  }

  function FindFrame(frames: seq<MetaFrame>, k: nat): (r: Option<nat>)
    ensures r.Some? ==> r.value < |frames| && frames[r.value].page == Some(k)
    ensures r.Some? ==> forall i :: 0 <= i < r.value ==> frames[i].page != Some(k)
    ensures r.None? ==> forall i :: 0 <= i < |frames| ==> frames[i].page != Some(k)
  {
    FirstFrom(frames, (f: MetaFrame) => f.page == Some(k), 0)
  }

  function FirstEmptyFrame(frames: seq<MetaFrame>): (r: Option<nat>)
    ensures r.Some? ==> r.value < |frames| && !frames[r.value].filled
    ensures r.Some? ==> forall i :: 0 <= i < r.value ==> frames[i].filled
    ensures r.None? ==> forall i :: 0 <= i < |frames| ==> frames[i].filled
  {
    FirstFrom(frames, (f: MetaFrame) => !f.filled, 0)
  }

  function FirstFreePage(used: seq<bool>): (r: Option<nat>)
    ensures r.Some? ==> r.value < |used| && !used[r.value]
    ensures r.Some? ==> forall k :: 0 <= k < r.value ==> used[k]
    ensures r.None? ==> forall k :: 0 <= k < |used| ==> used[k]
  {
    FirstFrom(used, (b: bool) => !b, 0)
  }

  function FirstFreeSlot(swap: seq<MetaSwap>): (r: Option<nat>)
    ensures r.Some? ==> r.value < |swap| && !swap[r.value].filled
    ensures r.Some? ==> forall s :: 0 <= s < r.value ==> swap[s].filled
    ensures r.None? ==> forall s :: 0 <= s < |swap| ==> swap[s].filled
  {
    FirstFrom(swap, (m: MetaSwap) => !m.filled, 0)
  }

  // ---------- contents ----------

  /** file_seek accepts the offset and file_read delivers all the bytes asked for. */
  predicate FileBytesExist(files: map<nat, seq<Byte>>, sp: SpInfo) {
    && sp.fileOffset <= INT_MAX && sp.bytesToRead <= PGSIZE
    && (sp.bytesToRead > 0 ==> sp.file in files && sp.fileOffset + sp.bytesToRead <= |files[sp.file]|)
  }

  /** The bytes a FILE page is loaded with. */
  function FileImage(files: map<nat, seq<Byte>>, sp: SpInfo): Page {
    if FileBytesExist(files, sp) && sp.bytesToRead > 0 then
      files[sp.file][sp.fileOffset..sp.fileOffset + sp.bytesToRead]
      + Fill(PGSIZE - sp.bytesToRead, 0)
    else ZERO_PAGE
  }

  /** The bytes a fault on `sp` would load, given where its instruction says they are. */
  function Home(vm: VM, sp: SpInfo): Page {
    match sp.instructions
    case FILE => FileImage(vm.files, sp)
    case SWAP => if 0 <= sp.swapIndex < |vm.slots| then vm.slots[sp.swapIndex] else ZERO_PAGE
    case _ => ZERO_PAGE
  }

  predicate Ref(vm: VM, p: Pid, j: int) {
    p in vm.procs && 0 <= j < |vm.procs[p].spt|
  }

  /** The bytes the kernel holds for page `j` of process `p`, wherever they are now. */
  function View(vm: VM, p: Pid, j: int): Page
    requires Ref(vm, p, j)
  {
    var sp := vm.procs[p].spt[j];
    if sp.kpage.Some? && sp.kpage.value < |vm.mem| then vm.mem[sp.kpage.value] else Home(vm, sp)
  }

  // ---------- invariant ----------

  predicate Shape(vm: VM) {
    && 0 < |vm.frames| == |vm.used| == |vm.mem|
    && |vm.swap| == |vm.slots|
    && vm.hand < |vm.frames|
  }

  /** Every filled frame names a page in use and an owner whose table holds that page. */
  ghost predicate FramesOk(vm: VM)
    requires Shape(vm)
  {
    && (forall i :: 0 <= i < |vm.frames| ==>
          if vm.frames[i].filled then
            && vm.frames[i].page.Some? && vm.frames[i].page.value < |vm.used|
            && vm.used[vm.frames[i].page.value]
            && vm.frames[i].owner.Some? && vm.frames[i].owner.value in vm.procs
            && FindKpage(vm.procs[vm.frames[i].owner.value].spt, vm.frames[i].page.value).Some?
          else vm.frames[i] == EMPTY_FRAME)
    && (forall i, i' :: 0 <= i < i' < |vm.frames| && vm.frames[i].filled && vm.frames[i'].filled ==>
          vm.frames[i].page != vm.frames[i'].page)
  }

  /** Every pool page in use is in some frame. */
  ghost predicate PoolOk(vm: VM) {
    forall k :: 0 <= k < |vm.used| && vm.used[k] ==> FindFrame(vm.frames, k).Some?
  }

  ghost predicate ResidentOk(vm: VM, p: Pid, proc: Process, sp: SpInfo)
    requires Shape(vm)
  {
    sp.kpage.Some? ==>
      && sp.kpage.value < |vm.mem|
      && FindFrame(vm.frames, sp.kpage.value).Some?
      && vm.frames[FindFrame(vm.frames, sp.kpage.value).value].owner == Some(p)
      && sp.upage in proc.pd
      && proc.pd[sp.upage].present
      && proc.pd[sp.upage].kpage == sp.kpage.value
      && proc.pd[sp.upage].writable == sp.writable
      && sp.instructions != SWAP
      && (proc.pd[sp.upage].dirty || vm.mem[sp.kpage.value] == Home(vm, sp))
  }

  predicate SwappedOk(vm: VM, sp: SpInfo) {
    sp.instructions == SWAP ==>
      && Shape(vm)
      && 0 <= sp.swapIndex < |vm.swap|
      && vm.swap[sp.swapIndex].filled
      && (vm.swap[sp.swapIndex].dirty || vm.slots[sp.swapIndex] == ZERO_PAGE)
  }

  ghost predicate TablesOk(vm: VM)
    requires Shape(vm)
  {
    forall p, j {:trigger vm.procs[p].spt[j]} :: Ref(vm, p, j) ==>
      && ResidentOk(vm, p, vm.procs[p], vm.procs[p].spt[j])
      && SwappedOk(vm, vm.procs[p].spt[j])
  }

  /** Within one table no user page and no kernel page occurs twice. */
  ghost predicate TableInjective(spt: seq<SpInfo>) {
    forall j, j' :: 0 <= j < j' < |spt| ==>
      && spt[j].upage != spt[j'].upage
      && (spt[j].kpage.Some? ==> spt[j].kpage != spt[j'].kpage)
  }

  ghost predicate TablesInjective(vm: VM) {
    forall p :: p in vm.procs ==> TableInjective(vm.procs[p].spt)
  }

  /** The hardware maps exactly the pages the supplemental table calls resident. */
  ghost predicate DirectoryOk(proc: Process) {
    forall u :: u in proc.pd && proc.pd[u].present ==>
      FindUpage(proc.spt, u).Some? &&
      proc.spt[FindUpage(proc.spt, u).value].kpage == Some(proc.pd[u].kpage)
  }

  ghost predicate DirectoriesOk(vm: VM) {
    forall p :: p in vm.procs ==> DirectoryOk(vm.procs[p])
  }

  ghost predicate OwnsSlot(vm: VM, p: Pid, j: int, s: int) {
    Ref(vm, p, j) && vm.procs[p].spt[j].instructions == SWAP && vm.procs[p].spt[j].swapIndex == s
  }

  /** Swap slots in use and SWAP pages match one to one. */
  ghost predicate SlotsOk(vm: VM) {
    && (forall s :: 0 <= s < |vm.swap| && vm.swap[s].filled ==> exists p, j :: OwnsSlot(vm, p, j, s))
    && (forall p, j, p', j', s :: OwnsSlot(vm, p, j, s) && OwnsSlot(vm, p', j', s) ==> p == p' && j == j')
  }

  ghost predicate Inv(vm: VM) {
    && Shape(vm) && FramesOk(vm) && PoolOk(vm)
    && TablesOk(vm) && TablesInjective(vm) && DirectoriesOk(vm) && SlotsOk(vm)
  }

  // ---------- step functions ----------

  /** A change to one page of one process, its frame, its pool page and its swap slot. */
  datatype Change = Change(
    p: Pid, j: nat, entry: SpInfo, pte: Pte,
    i: nat, frame: MetaFrame,
    k: nat, page: Page,
    slot: Option<nat>, meta: MetaSwap, image: Page)

  predicate InRange(vm: VM, c: Change) {
    && Shape(vm) && Ref(vm, c.p, c.j) && c.i < |vm.frames| && c.k < |vm.mem|
    && (c.slot.Some? ==> c.slot.value < |vm.swap|)
  }

  function NewProcess(proc: Process, c: Change): Process
    requires c.j < |proc.spt|
  {
    Process(proc.spt[c.j := c.entry], proc.pd[c.entry.upage := c.pte])
  }

  function Apply(vm: VM, c: Change): VM
    requires InRange(vm, c)
  {
    VM(vm.files,
       vm.frames[c.i := c.frame], vm.hand,
       vm.used[c.k := c.frame.filled], vm.mem[c.k := c.page],
       if c.slot.Some? then vm.swap[c.slot.value := c.meta] else vm.swap,
       if c.slot.Some? then vm.slots[c.slot.value := c.image] else vm.slots,
       vm.procs[c.p := NewProcess(vm.procs[c.p], c)])
  }

  const NO_META := MetaSwap(false, USELESS, false)

  /** Frame `i` holds page `FrameIndex(vm, i)` of process `FrameOwner(vm, i)`. */
  predicate FrameMapped(vm: VM, i: nat) {
    && Shape(vm) && i < |vm.frames|
    && vm.frames[i].page.Some? && vm.frames[i].page.value < |vm.mem|
    && vm.frames[i].owner.Some? && vm.frames[i].owner.value in vm.procs
    && var proc := vm.procs[vm.frames[i].owner.value];
       var at := FindKpage(proc.spt, vm.frames[i].page.value);
       at.Some? && proc.spt[at.value].upage in proc.pd
  }

  function FrameOwner(vm: VM, i: nat): Pid
    requires FrameMapped(vm, i)
  {
    vm.frames[i].owner.value
  }

  function FrameIndex(vm: VM, i: nat): nat
    requires FrameMapped(vm, i)
  {
    FindKpage(vm.procs[FrameOwner(vm, i)].spt, vm.frames[i].page.value).value
  }

  function FrameEntry(vm: VM, i: nat): SpInfo
    requires FrameMapped(vm, i)
  {
    vm.procs[FrameOwner(vm, i)].spt[FrameIndex(vm, i)]
  }

  function FramePte(vm: VM, i: nat): Pte
    requires FrameMapped(vm, i)
  {
    vm.procs[FrameOwner(vm, i)].pd[FrameEntry(vm, i).upage]
  }

  /** A change that only replaces the PTE and contents of the page in frame `i`. */
  function Retouch(vm: VM, i: nat, pte: Pte, page: Page): Change
    requires FrameMapped(vm, i)
  {
    Change(FrameOwner(vm, i), FrameIndex(vm, i), FrameEntry(vm, i), pte,
           i, vm.frames[i], vm.frames[i].page.value, page, None, NO_META, ZERO_PAGE)
  }

  /** pagedir_set_accessed (owner, page, false) for the page in frame `i`. */
  function ClearAccessed(vm: VM, i: nat): VM
    requires FrameMapped(vm, i)
  {
    Apply(vm, Retouch(vm, i, FramePte(vm, i).(accessed := false), vm.mem[vm.frames[i].page.value]))
  }

  /** How the page in frame `i` leaves memory; None when it needs swap and the swap block is full. */
  function EvictChange(vm: VM, i: nat): Option<Change>
    requires FrameMapped(vm, i)
  {
    var sp, pte, k := FrameEntry(vm, i), FramePte(vm, i), vm.frames[i].page.value;
    var out := Change(FrameOwner(vm, i), FrameIndex(vm, i), sp.(kpage := None), pte.(present := false),
                      i, EMPTY_FRAME, k, DEAD_PAGE, None, NO_META, ZERO_PAGE);
    if sp.instructions == STACK || pte.dirty then
      match FirstFreeSlot(vm.swap)
      case None => None
      case Some(s) =>
        Some(out.(entry := sp.(kpage := None, instructions := SWAP, swapIndex := s),
                  slot := Some(s), meta := MetaSwap(true, sp.instructions, pte.dirty), image := vm.mem[k]))
    else Some(out)
  }

  /** How page `j` of `p` is loaded into pool page `k` and installed, accounted to frame `i`. */
  function InstallChange(vm: VM, p: Pid, j: nat, i: nat, k: nat): Change
    requires Ref(vm, p, j) && SwappedOk(vm, vm.procs[p].spt[j])
  {
    var sp := vm.procs[p].spt[j];
    var pte := Pte(k, true, sp.writable, false, false);
    var load := Change(p, j, sp.(kpage := Some(k)), pte,
                       i, MetaFrame(true, Some(k), Some(p)), k, Home(vm, sp), None, NO_META, ZERO_PAGE);
    if sp.instructions == SWAP then
      var dirty := vm.swap[sp.swapIndex].dirty;
      load.(entry := sp.(kpage := Some(k), instructions := USELESS, swapIndex := -1),
            pte := pte.(dirty := dirty),
            slot := Some(sp.swapIndex), meta := MetaSwap(false, USELESS, dirty), image := Home(vm, sp))
    else load
  }

  /** list_push_back of a new supplemental entry. */
  function AddEntry(vm: VM, p: Pid, sp: SpInfo): VM
    requires p in vm.procs
  {
    vm.(procs := vm.procs[p := vm.procs[p].(spt := vm.procs[p].spt + [sp])])
  }
}
