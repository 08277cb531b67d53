/** How the live inodes, the root directory, the open inodes and the open files agree. */
module FsSystem {
  import opened Prelude
  import opened FsLayout
  import opened FsDirectory
  import opened FsTable

  /**
   * The file system at one moment. Besides open files, `refs` are on inodes while a call is at work,
   * and `pending` are inodes created but not yet in the directory.
   */
  datatype Sys = Sys(live: set<nat>, extents: map<nat, (nat, nat)>, dir: seq<Byte>,
                     inodes: seq<Inode>, files: map<nat, File>, refs: multiset<nat>, pending: set<nat>)

  /** An open inode has its header's start and length, and is marked removed exactly when no name leads to it. */
  ghost predicate InodeOk(x: Inode, s: nat, extents: map<nat, (nat, nat)>, named: set<nat>) {
    && x.sector == s && s != FREE_MAP_SECTOR
    && s in extents && extents[s] == (x.start, x.length)
    && (x.removed <==> s != ROOT_DIR_SECTOR && s !in named)
  }

  ghost predicate TableOk(table: map<nat, Inode>, extents: map<nat, (nat, nat)>, named: set<nat>) {
    forall s :: s in table ==> InodeOk(table[s], s, extents, named)
  }

  /** The live inodes are the two system files, the named, the open, and those being created. */
  ghost predicate LiveOk(live: set<nat>, named: set<nat>, open: set<nat>, pending: set<nat>) {
    && live == {FREE_MAP_SECTOR, ROOT_DIR_SECTOR} + named + open + pending
    && pending !! {FREE_MAP_SECTOR, ROOT_DIR_SECTOR} + named + open
  }

  ghost predicate FilesOk(files: map<nat, File>) {
    forall fd :: fd in files ==> ROOT_DIR_SECTOR < files[fd].ino
  }

  ghost predicate RootOk(d: seq<Byte>) {
    |d| % ENTRY_SIZE == 0 && DirOk(Slots(d))
  }

  ghost predicate SysOk(y: Sys) {
    && RootOk(y.dir) && Distinct(y.inodes) && FilesOk(y.files) && y.extents.Keys == y.live
    && TableOk(Table(y.inodes), y.extents, Named(y.dir)) && CountsOk(Table(y.inodes), y.files, y.refs)
    && LiveOk(y.live, Named(y.dir), Table(y.inodes).Keys, y.pending)
  }

  ghost function NamesOf(d: seq<Byte>): map<Name, nat>
    requires RootOk(d)
  {
    NameMap(Slots(d))
  }

  /** The inodes that have a name. */
  ghost function Named(d: seq<Byte>): set<nat>
    requires RootOk(d)
  {
    NamesOf(d).Values
  }

  ghost predicate IsOpen(y: Sys, s: nat) {
    exists i :: 0 <= i < |y.inodes| && y.inodes[i].sector == s
  }

  lemma TableExtent(y: Sys, i: nat)
    requires SysOk(y) && i < |y.inodes|
    ensures y.inodes[i].sector in y.extents && y.extents[y.inodes[i].sector] == (y.inodes[i].start, y.inodes[i].length)
  {
    hide Table, CountsOk, Named, RootOk, FilesOk;
  }

  lemma IsOpenTable(y: Sys, s: nat)
    requires Distinct(y.inodes)
    ensures IsOpen(y, s) <==> s in Table(y.inodes)
  {
  }

  lemma FreshKeeps(y: Sys)
    requires RootOk(y.dir) && y.extents.Keys == y.live && y.inodes == [] && y.files == map[] && y.refs == multiset{}
    requires y.pending == {} && y.live == {FREE_MAP_SECTOR, ROOT_DIR_SECTOR} + Named(y.dir)
    ensures SysOk(y)
  {
    hide Named, RootOk;
    assert Table(y.inodes) == map[];
    forall s: nat ensures Counted(map[], map[], multiset{}, s) {
      assert OpenersOf(map[], s) == {};
    }
  }

  // ---------- inode_open and inode_close ----------

  lemma OpenFirstKeeps(y: Sys, x: Inode)
    requires SysOk(y) && x.sector in y.live && x.sector != FREE_MAP_SECTOR && x.sector !in y.pending
    requires !IsOpen(y, x.sector) && x.openCnt == 1 && !x.removed && x.denyCnt == 0
    requires y.extents[x.sector] == (x.start, x.length)
    ensures SysOk(y.(inodes := [x] + y.inodes, refs := y.refs + multiset{x.sector}))
  {
    hide Table, CountsOk, Named, RootOk, FilesOk;
    IsOpenTable(y, x.sector);
    TablePush(y.inodes, x);
    OpenFirst(Table(y.inodes), y.files, y.refs, x);
  }

  lemma OpenAgainKeeps(y: Sys, i: nat)
    requires SysOk(y) && i < |y.inodes|
    ensures var x := y.inodes[i];
            SysOk(y.(inodes := y.inodes[i := x.(openCnt := x.openCnt + 1)], refs := y.refs + multiset{x.sector}))
  {
    hide Table, CountsOk, Named, RootOk, FilesOk;
    var x := y.inodes[i];
    TableUpdate(y.inodes, i, x.(openCnt := x.openCnt + 1));
    OpenAgain(Table(y.inodes), y.files, y.refs, x.sector);
  }

  lemma CloseOneKeeps(y: Sys, i: nat)
    requires SysOk(y) && i < |y.inodes| && y.refs[y.inodes[i].sector] > 0 && y.inodes[i].openCnt > 1
    ensures var x := y.inodes[i];
            SysOk(y.(inodes := y.inodes[i := x.(openCnt := x.openCnt - 1)], refs := y.refs - multiset{x.sector}))
  {
    hide Table, CountsOk, Named, RootOk, FilesOk;
    var x := y.inodes[i];
    TableUpdate(y.inodes, i, x.(openCnt := x.openCnt - 1));
    CloseOne(Table(y.inodes), y.files, y.refs, x.sector);
  }

  /** The last close of an inode keeps it live while a name leads to it. */
  lemma CloseLastKeeps(y: Sys, i: nat)
    requires SysOk(y) && i < |y.inodes| && y.refs[y.inodes[i].sector] > 0 && y.inodes[i].openCnt == 1
    ensures var x := y.inodes[i];
            var y' := y.(inodes := y.inodes[..i] + y.inodes[i + 1..], refs := y.refs - multiset{x.sector});
            if x.removed then
              && x.sector in y.live && x.sector > ROOT_DIR_SECTOR && x.sector !in Named(y.dir)
              && SysOk(y'.(live := y.live - {x.sector}, extents := y.extents - {x.sector}))
            else
              SysOk(y') && (x.sector == ROOT_DIR_SECTOR || x.sector in Named(y.dir))
  {
    hide Table, CountsOk, Named, RootOk, FilesOk;
    TableRemove(y.inodes, i);
    CloseLast(Table(y.inodes), y.files, y.refs, y.inodes[i].sector);
  }

  /** An inode with a reference is open, as often as it is referred to. */
  lemma RefIsOpen(y: Sys, s: nat)
    requires SysOk(y) && s in y.refs
    ensures IsOpen(y, s) && s in y.live && s !in y.pending && s != FREE_MAP_SECTOR
    ensures forall i :: 0 <= i < |y.inodes| && y.inodes[i].sector == s ==> y.inodes[i].openCnt >= 1
  {
    hide Table, Named, RootOk, FilesOk;
    OpenIff(Table(y.inodes), y.files, y.refs, s);
    IsOpenTable(y, s);
    assert Counted(Table(y.inodes), y.files, y.refs, s);
  }

  // ---------- the directory ----------

  /** A new inode before it gets a name, and what becomes of it if it gets none. */
  lemma PendKeeps(y: Sys, s: nat, extent: (nat, nat))
    requires SysOk(y) && s !in y.live
    ensures SysOk(y.(live := y.live + {s}, extents := y.extents[s := extent], pending := y.pending + {s}))
  {
    hide Table, CountsOk, Named, RootOk, FilesOk;
  }

  lemma UnpendKeeps(y: Sys, s: nat)
    requires SysOk(y) && s in y.pending
    ensures SysOk(y.(live := y.live - {s}, extents := y.extents - {s}, pending := y.pending - {s}))
  {
    hide Table, CountsOk, Named, RootOk, FilesOk;
  }

  lemma PendingLive(y: Sys, s: nat)
    requires SysOk(y) && s in y.pending
    ensures s in y.live && s > ROOT_DIR_SECTOR
  {
    hide Table, CountsOk, Named, RootOk, FilesOk;
  }

  /** The directory is well formed, and looking a name up tells whether it is there. */
  lemma SysRoot(y: Sys, name: Name)
    requires SysOk(y)
    ensures RootOk(y.dir) && (FindSlot(Slots(y.dir), name, 0).Some? <==> name in NamesOf(y.dir))
    ensures FindSlot(Slots(y.dir), name, 0).Some? ==>
              NamesOf(y.dir)[name] == Slots(y.dir)[FindSlot(Slots(y.dir), name, 0).value].sector
  {
    hide Table, CountsOk, FilesOk, NameMap, DirOk;
    LookupFinds(Slots(y.dir), name);
  }

  /** A slot in use leads to a live inode. */
  lemma InUseSlot(y: Sys, k: nat)
    requires SysOk(y) && k < |Slots(y.dir)| && Slots(y.dir)[k].Entry?
    ensures var s := Slots(y.dir)[k].sector;
            s == EntrySector(EntryAt(y.dir, k)) && s in y.live && s > ROOT_DIR_SECTOR && s !in y.pending
  {
    hide Table, CountsOk, FilesOk, NameMap, EntrySector, EntryName;
    assert NamesOf(y.dir)[Slots(y.dir)[k].name] in Named(y.dir);
    NameMapProper(Slots(y.dir), Slots(y.dir)[k].name);
  }

  lemma ClearedSlot(e: EntryBytes)
    ensures SlotOf(e[19 := 0]) == Free
  {
  }

  /** Naming a new inode. */
  lemma AddNameKeeps(y: Sys, d': seq<Byte>, i: nat, name: Name, s: nat)
    requires SysOk(y) && s in y.pending && ValidName(name) && name !in NamesOf(y.dir)
    requires i < |Slots(y.dir)| && Slots(y.dir)[i].Free?
    requires |d'| == |y.dir| && Slots(d') == Slots(y.dir)[i := Entry(name, s)]
    ensures RootOk(d') && NamesOf(d') == NamesOf(y.dir)[name := s]
    ensures SysOk(y.(dir := d', pending := y.pending - {s}))
  {
    hide Table, CountsOk, FilesOk, NameMap, DirOk, Slots, ValidName;
    forall n | n in NamesOf(y.dir) ensures NamesOf(y.dir)[n] != s {
      assert NamesOf(y.dir)[n] in Named(y.dir);
    }
    AddKeeps(Slots(y.dir), i, name, s);
    ValuesAdd(NamesOf(y.dir), name, s);
    AddedKeeps(y, d', s);
  }

  lemma ValuesAdd(m: map<Name, nat>, name: Name, s: nat)
    requires name !in m
    ensures m[name := s].Values == m.Values + {s}
  {
    var m' := m[name := s];
    forall v | v in m.Values + {s} ensures v in m'.Values {
      if v != s {
        var n :| n in m && m[n] == v;
        assert m'[n] == v;
      } else {
        assert m'[name] == s;
      }
    }
  }

  lemma AddedKeeps(y: Sys, d': seq<Byte>, s: nat)
    requires SysOk(y) && s in y.pending && RootOk(d') && Named(d') == Named(y.dir) + {s}
    ensures SysOk(y.(dir := d', pending := y.pending - {s}))
  {
    hide Table, CountsOk, Named, RootOk, FilesOk;
  }

  /** Taking an inode's name away, and marking the inode. */
  lemma RemoveNameKeeps(y: Sys, d': seq<Byte>, i: nat, k: nat)
    requires SysOk(y) && i < |Slots(y.dir)| && Slots(y.dir)[i].Entry?
    requires k < |y.inodes| && y.inodes[k].sector == Slots(y.dir)[i].sector
    requires |d'| == |y.dir| && Slots(d') == Slots(y.dir)[i := Free]
    ensures RootOk(d') && NamesOf(d') == NamesOf(y.dir) - {Slots(y.dir)[i].name}
    ensures SysOk(y.(dir := d', inodes := y.inodes[k := y.inodes[k].(removed := true)]))
  {
    hide Table, CountsOk, FilesOk, NameMap, DirOk, Slots;
    var name, s := Slots(y.dir)[i].name, Slots(y.dir)[i].sector;
    RemoveKeeps(Slots(y.dir), i);
    NameMapProper(Slots(y.dir), name);
    ValuesRemove(NamesOf(y.dir), name);
    RemovedKeeps(y, d', k);
  }

  lemma ValuesRemove(m: map<Name, nat>, name: Name)
    requires name in m && forall n :: n in m && n != name ==> m[n] != m[name]
    ensures (m - {name}).Values == m.Values - {m[name]}
  {
    var m' := m - {name};
    forall v | v in m.Values && v != m[name] ensures v in m'.Values {
      var n :| n in m && m[n] == v;
      assert m'[n] == v;
    }
  }

  lemma RemovedKeeps(y: Sys, d': seq<Byte>, k: nat)
    requires SysOk(y) && k < |y.inodes| && y.inodes[k].sector > ROOT_DIR_SECTOR
    requires RootOk(d') && y.inodes[k].sector in Named(y.dir) && Named(d') == Named(y.dir) - {y.inodes[k].sector}
    ensures SysOk(y.(dir := d', inodes := y.inodes[k := y.inodes[k].(removed := true)]))
  {
    hide Table, CountsOk, Named, RootOk, FilesOk;
    var x := y.inodes[k].(removed := true);
    TableUpdate(y.inodes, k, x);
    CountsMarked(Table(y.inodes), y.files, y.refs, x);
  }

  lemma CountsMarked(table: map<nat, Inode>, files: map<nat, File>, refs: multiset<nat>, x: Inode)
    requires CountsOk(table, files, refs) && x.sector in table
    requires x.openCnt == table[x.sector].openCnt && x.denyCnt == table[x.sector].denyCnt
    ensures CountsOk(table[x.sector := x], files, refs)
  {
    var table' := table[x.sector := x];
    forall s: nat ensures Counted(table', files, refs, s) {
      assert Counted(table, files, refs, s);
    }
  }

  // ---------- open files ----------

  lemma FileOpenedKeeps(y: Sys, fd: nat, s: nat)
    requires SysOk(y) && fd !in y.files && s in y.refs && s > ROOT_DIR_SECTOR
    ensures SysOk(y.(files := y.files[fd := File(s, 0, false)], refs := y.refs - multiset{s}))
  {
    hide Table, CountsOk, Named, RootOk;
    FileOpened(Table(y.inodes), y.files, y.refs, fd, File(s, 0, false));
  }

  lemma FileClosedKeeps(y: Sys, fd: nat)
    requires SysOk(y) && fd in y.files && !y.files[fd].denyWrite
    ensures SysOk(y.(files := y.files - {fd}, refs := y.refs + multiset{y.files[fd].ino}))
  {
    hide Table, CountsOk, Named, RootOk;
    FileClosed(Table(y.inodes), y.files, y.refs, fd);
  }

  lemma FileMovedKeeps(y: Sys, fd: nat, pos: nat)
    requires SysOk(y) && fd in y.files
    ensures SysOk(y.(files := y.files[fd := y.files[fd].(pos := pos)]))
  {
    hide Table, CountsOk, Named, RootOk;
    FileMoved(Table(y.inodes), y.files, y.refs, fd, pos);
  }

  lemma FileDeniedKeeps(y: Sys, fd: nat, deny: bool, i: nat)
    requires SysOk(y) && fd in y.files && y.files[fd].denyWrite != deny
    requires i < |y.inodes| && y.inodes[i].sector == y.files[fd].ino
    ensures var x := y.inodes[i];
            && (if deny then x.denyCnt < x.openCnt else x.denyCnt > 0)
            && var n := if deny then x.denyCnt + 1 else x.denyCnt - 1;
               SysOk(y.(inodes := y.inodes[i := x.(denyCnt := n)],
                        files := y.files[fd := y.files[fd].(denyWrite := deny)]))
  {
    hide Table, CountsOk, Named, RootOk;
    FileDenied(Table(y.inodes), y.files, y.refs, fd, deny);
    var x := y.inodes[i];
    TableUpdate(y.inodes, i, x.(denyCnt := x.denyCnt + if deny then 1 else -1));
  }

  /** An open file's inode is open and live, and takes no writes exactly when some open file denies them. */
  lemma FileInode(y: Sys, fd: nat, i: nat)
    requires SysOk(y) && fd in y.files && i < |y.inodes| && y.inodes[i].sector == y.files[fd].ino
    ensures y.inodes[i].sector in y.live && y.extents[y.inodes[i].sector] == (y.inodes[i].start, y.inodes[i].length)
    ensures y.inodes[i].sector > ROOT_DIR_SECTOR
    ensures y.inodes[i].denyCnt > 0 <==> Denied(y.files, y.inodes[i].sector)
  {
    hide Table, CountsOk, Named, RootOk;
    DeniedIff(Table(y.inodes), y.files, y.refs, y.inodes[i].sector);
  }

  ghost predicate Denied(files: map<nat, File>, s: nat) {
    exists fd :: fd in files && files[fd].ino == s && files[fd].denyWrite
  }

  lemma FileIsOpen(y: Sys, fd: nat)
    requires SysOk(y) && fd in y.files
    ensures IsOpen(y, y.files[fd].ino)
  {
    hide Table, Named, RootOk, CountsOk;
    OpenIff(Table(y.inodes), y.files, y.refs, y.files[fd].ino);
    IsOpenTable(y, y.files[fd].ino);
  }

  /** While it is open the root directory can be written. */
  lemma RootInode(y: Sys, i: nat)
    requires SysOk(y) && i < |y.inodes| && y.inodes[i].sector == ROOT_DIR_SECTOR
    ensures ROOT_DIR_SECTOR in y.live && y.extents[ROOT_DIR_SECTOR] == (y.inodes[i].start, y.inodes[i].length)
    ensures y.inodes[i].denyCnt == 0 && |y.dir| % ENTRY_SIZE == 0
  {
    hide Table, CountsOk, Named;
    DeniedIff(Table(y.inodes), y.files, y.refs, ROOT_DIR_SECTOR);
  }

  /** Between calls an open inode is the only one for its sector, and counts its open files and the denying ones. */
  lemma InodeCounts(y: Sys, i: nat)
    requires SysOk(y) && y.refs == multiset{} && i < |y.inodes|
    ensures var x := y.inodes[i];
            && x.openCnt == |OpenersOf(y.files, x.sector)| > 0
            && x.denyCnt == |DeniersOf(y.files, x.sector)| <= x.openCnt
            && forall j :: 0 <= j < |y.inodes| && j != i ==> y.inodes[j].sector != x.sector
  {
    hide Named, RootOk, Table;
    var s := y.inodes[i].sector;
    assert Counted(Table(y.inodes), y.files, y.refs, s);
    SubsetSize(DeniersOf(y.files, s), OpenersOf(y.files, s));
  }

  /** With no call at work, the inodes beyond the system files are those with a name or an open file. */
  lemma QuietLive(y: Sys, s: nat)
    requires SysOk(y) && y.refs == multiset{} && y.pending == {} && s > ROOT_DIR_SECTOR
    ensures s in y.live <==> s in Named(y.dir) || exists fd :: fd in y.files && y.files[fd].ino == s
  {
    hide Table, CountsOk, Named, RootOk;
    OpenIff(Table(y.inodes), y.files, y.refs, s);
  }
}
