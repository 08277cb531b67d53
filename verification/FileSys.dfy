/** The file system calls, over the store of inodes. */
module FileSys {
  import opened Prelude
  import opened Disk
  import opened FsLayout
  import opened FsDirectory
  import opened FsTable
  import opened FsSystem
  import opened FsStore
  import opened FsSpec
  import opened Bitmap

  lemma SliceEntry(d: seq<Byte>, i: nat)
    requires i <= EntryCount(d) && |d| % ENTRY_SIZE == 0
    ensures |Slice(d, ENTRY_SIZE, ENTRY_SIZE * i)| == if i < EntryCount(d) then ENTRY_SIZE else 0
    ensures i < EntryCount(d) ==> Slice(d, ENTRY_SIZE, ENTRY_SIZE * i) == EntryAt(d, i)
  {
  }

  lemma WrittenEntry(d: seq<Byte>, i: nat, e: EntryBytes)
    requires i <= EntryCount(d) && |d| % ENTRY_SIZE == 0
    ensures |Fitting(d, ENTRY_SIZE * i, e)| == if i < EntryCount(d) then ENTRY_SIZE else 0
    ensures Written(d, ENTRY_SIZE * i, e) == if i < EntryCount(d) then Splice(d, ENTRY_SIZE * i, e) else d
  {
    if i < EntryCount(d) { assert e[..ENTRY_SIZE] == e; }
  }

  lemma OpenAt(y: Sys, s: nat)
    requires IsOpen(y, s)
    ensures exists i :: 0 <= i < |y.inodes| && y.inodes[i].sector == s
  {
  }

  class FileSystem {
    const store: FileStore
    var inodes: seq<Inode>
    var files: map<nat, File>
    ghost var refs: multiset<nat>
    ghost var pending: set<nat>

    ghost predicate Valid()
      reads this, store
    {
      && store.Valid() && store.Synced() && store.mapOpen
      && ROOT_DIR_SECTOR in store.live && SysOk(Snap())
    }

    ghost function Snap(): Sys
      requires store.Valid() && ROOT_DIR_SECTOR in store.live
      reads this, store
    {
      Sys(store.live, store.Extents(), store.Files()[ROOT_DIR_SECTOR], inodes, files, refs, pending)
    }

    ghost function Dir(): seq<Byte>
      requires Valid()
      reads this, store
    {
      store.Files()[ROOT_DIR_SECTOR]
    }

    ghost function Names(): map<Name, nat>
      requires Valid()
      reads this, store
    {
      NamesOf(Dir())
    }

    /** The bytes of every inode but the two system files. */
    ghost function Contents(): map<nat, seq<Byte>>
      requires Valid()
      reads this, store
    {
      store.Files() - {FREE_MAP_SECTOR, ROOT_DIR_SECTOR}
    }

    /** What callers see between calls. */
    ghost function Look(): View
      requires Valid()
      reads this, store
    {
      View(Names(), Contents(), files)
    }

    /** No call is at work. */
    ghost predicate Quiet()
      reads this, store
    {
      Valid() && refs == multiset{} && pending == {}
    }

    /** filesys_init once the free map is open: no file is open. */
    constructor (store: FileStore)
      requires store.Valid() && store.Synced() && store.mapOpen
      requires ROOT_DIR_SECTOR in store.live && RootOk(store.Files()[ROOT_DIR_SECTOR])
      requires store.live == {FREE_MAP_SECTOR, ROOT_DIR_SECTOR} + Named(store.Files()[ROOT_DIR_SECTOR])
      ensures this.store == store && Valid() && inodes == [] && files == map[] && refs == multiset{} && pending == {}
    {
      hide Named, RootOk, SysOk, FileStore.Valid, FileStore.Synced, FileStore.Files, FileStore.Extents;
      this.store := store;
      inodes, files, refs, pending := [], map[], multiset{}, {};
      new;
      FreshKeeps(Snap());
    }

    /** The place of an open inode in the list. */
    method IndexOf(s: nat) returns (i: nat)
      requires exists i :: 0 <= i < |inodes| && inodes[i].sector == s
      ensures i < |inodes| && inodes[i].sector == s
    {
      i := 0;
      while inodes[i].sector != s
        invariant i < |inodes| && forall j :: 0 <= j < i ==> inodes[j].sector != s
        decreases |inodes| - i
      {
        i := i + 1;
      }
    }

    /** inode_open. */
    method InodeOpen(s: nat)
      requires Valid() && s in store.live && s != FREE_MAP_SECTOR && s !in pending
      modifies this`inodes, this`refs
      ensures Valid() && refs == old(refs) + multiset{s}
    {
      hide SysOk, FileStore.Valid, FileStore.Synced, FileStore.Files, FileStore.Extents;
      ghost var y := Snap();
      var i := 0;
      while i < |inodes|
        invariant 0 <= i <= |inodes| && inodes == old(inodes) && refs == old(refs)
        invariant forall j :: 0 <= j < i ==> inodes[j].sector != s
      {
        if inodes[i].sector == s {
          OpenAgainKeeps(y, i);
          inodes, refs := inodes[i := inodes[i].(openCnt := inodes[i].openCnt + 1)], refs + multiset{s};
          return;
        }
        i := i + 1;
      }
      store.HeaderAt(s);
      var x := Inode(s, 1, false, 0, Start(store.dev, s), Length(store.dev, s));
      OpenFirstKeeps(y, x);
      inodes, refs := [x] + inodes, refs + multiset{s};
    }

    /** inode_close: the last close of a removed inode gives its sectors back. */
    method InodeClose(s: nat)
      requires Valid() && s in refs
      modifies this`inodes, this`refs, store`dev, store`freeMap, store`live, store`extra
      ensures Valid() && refs == old(refs) - multiset{s} && Dir() == old(Dir()) && store.extra == old(store.extra)
      ensures Contents() == if s in store.live then old(Contents()) else old(Contents()) - {s}
      ensures s in store.live ==> store.freeMap == old(store.freeMap)
    {
      hide SysOk, FileStore.Valid, FileStore.Synced, FileStore.Files, FileStore.Extents;
      hide Encode, SetRange, BytesToSectors, Named, RootOk, IsOpen;
      ghost var y := Snap();
      RefIsOpen(y, s);
      assert exists i :: 0 <= i < |inodes| && inodes[i].sector == s by { OpenAt(y, s); }
      var i := IndexOf(s);
      var x := inodes[i];
      if x.openCnt == 1 {
        CloseLastKeeps(y, i);
        inodes, refs := inodes[..i] + inodes[i + 1..], refs - multiset{s};
        if x.removed {
          TableExtent(y, i);
          store.ReleaseInode(s, x.start, x.length);
        }
      } else {
        CloseOneKeeps(y, i);
        inodes, refs := inodes[i := x.(openCnt := x.openCnt - 1)], refs - multiset{s};
      }
    }

    // ---------- the root directory, while a call has it open ----------

    /** lookup: the slot that holds `name`, with its bytes. */
    method Lookup(name: Name) returns (r: Option<nat>, e: EntryBytes)
      requires Valid() && ROOT_DIR_SECTOR in refs
      ensures r == FindSlot(Slots(Dir()), name, 0)
      ensures r.Some? ==> e == EntryAt(Dir(), r.value)
    {
      hide SysOk, IsOpen, NameMap, EntryName, EntrySector;
      hide FileStore.Valid, FileStore.Synced, FileStore.Files, FileStore.Extents;
      var i := OpenRoot();
      var x, k := inodes[i], 0;
      while true
        invariant k <= |Slots(Dir())| && FindSlot(Slots(Dir()), name, 0) == FindSlot(Slots(Dir()), name, k)
        decreases |Slots(Dir())| - k
      {
        SliceEntry(Dir(), k);
        var b := store.ReadAt(ROOT_DIR_SECTOR, x.start, x.length, ENTRY_SIZE, ENTRY_SIZE * k);
        if |b| != ENTRY_SIZE {
          return None, Zeros(ENTRY_SIZE);
        }
        if EntryInUse(b) && EntryName(b) == name {
          return Some(k), b;
        }
        k := k + 1;
      }
    }

    /** The root directory's inode, which is open. */
    method OpenRoot() returns (i: nat)
      requires Valid() && ROOT_DIR_SECTOR in refs
      ensures i < |inodes| && inodes[i].sector == ROOT_DIR_SECTOR && inodes[i].denyCnt == 0
      ensures store.Extents()[ROOT_DIR_SECTOR] == (inodes[i].start, inodes[i].length) && |Dir()| % ENTRY_SIZE == 0
    {
      hide SysOk, IsOpen, FileStore.Valid, FileStore.Synced, FileStore.Files, FileStore.Extents;
      RefIsOpen(Snap(), ROOT_DIR_SECTOR);
      OpenAt(Snap(), ROOT_DIR_SECTOR);
      i := IndexOf(ROOT_DIR_SECTOR);
      RootInode(Snap(), i);
    }

    /** The first slot not in use, or one past the last; with the bytes there. */
    method FreeSlot() returns (k: nat, e: EntryBytes)
      requires Valid() && ROOT_DIR_SECTOR in refs
      ensures k <= |Slots(Dir())| && FindFree(Slots(Dir()), 0) == if k < |Slots(Dir())| then Some(k) else None
      ensures k < |Slots(Dir())| ==> e == EntryAt(Dir(), k)
    {
      hide SysOk, IsOpen, NameMap, EntryName, EntrySector;
      hide FileStore.Valid, FileStore.Synced, FileStore.Files, FileStore.Extents;
      var i := OpenRoot();
      var x := inodes[i];
      k, e := 0, Zeros(ENTRY_SIZE);
      while true
        invariant k <= |Slots(Dir())| && FindFree(Slots(Dir()), 0) == FindFree(Slots(Dir()), k)
        decreases |Slots(Dir())| - k
      {
        SliceEntry(Dir(), k);
        var b := store.ReadAt(ROOT_DIR_SECTOR, x.start, x.length, ENTRY_SIZE, ENTRY_SIZE * k);
        if |b| != ENTRY_SIZE {
          return;
        }
        e := b;
        if !EntryInUse(e) {
          return;
        }
        k := k + 1;
      }
    }

    /** Writes one entry: it is stored exactly when its slot exists. */
    method WriteEntry(k: nat, e: EntryBytes) returns (ok: bool)
      requires Valid() && ROOT_DIR_SECTOR in refs && k <= |Slots(Dir())|
      modifies store`dev
      ensures store.Valid() && store.Synced() && store.Extents() == old(store.Extents())
      ensures ok == (k < |Slots(old(Dir()))|)
      ensures ok ==> store.Files() == old(store.Files())[ROOT_DIR_SECTOR := Splice(old(Dir()), ENTRY_SIZE * k, e)]
      ensures !ok ==> store.Files() == old(store.Files())
    {
      hide SysOk, IsOpen, NameMap, SlotOf, FileStore.Valid, FileStore.Synced, FileStore.Files, FileStore.Extents;
      var i := OpenRoot();
      WrittenEntry(Dir(), k, e);
      var x := inodes[i];
      var n := store.WriteAt(ROOT_DIR_SECTOR, x.start, x.length, x.denyCnt > 0, e, ENTRY_SIZE * k);
      ok := n == ENTRY_SIZE;
    }

    /** dir_add of a new inode. */
    method DirAdd(name: Name, sector: nat) returns (ok: bool)
      requires Valid() && ROOT_DIR_SECTOR in refs && 0 !in name && sector in pending
      modifies this`pending, store`dev
      ensures Valid() && store.extra == old(store.extra) && store.Extents() == old(store.Extents())
      ensures ok <==> ValidName(name) && name !in old(Names()) && FindFree(Slots(old(Dir())), 0).Some?
      ensures ok ==> Names() == old(Names())[name := sector] && pending == old(pending) - {sector}
      ensures !ok ==> Dir() == old(Dir()) && pending == old(pending)
      ensures Contents() == old(Contents())
    {
      hide SysOk, IsOpen, NameMap, SlotOf, FileStore.Valid, FileStore.Synced, FileStore.Files, FileStore.Extents;
      hide NamesOf, DirOk, Slots, RootOk, FindSlot, FindFree;
      ghost var y := Snap();
      if |name| == 0 || |name| > NAME_MAX {
        return false;
      }
      var found, _ := Lookup(name);
      SysRoot(y, name);
      if found.Some? {
        return false;
      }
      var k, e := FreeSlot();
      assert sector < WORD by { PendingLive(y, sector); store.HeaderAt(sector); }
      ok := WriteEntry(k, FilledEntry(e, name, sector));
      if ok {
        SlotReplaced(y.dir, k, FilledEntry(e, name, sector));
        FilledSlot(e, name, sector);
        AddNameKeeps(y, store.Files()[ROOT_DIR_SECTOR], k, name, sector);
        pending := pending - {sector};
      }
    }

    /** dir_remove: the name goes at once, the inode with its last opener. */
    method DirRemove(name: Name) returns (ok: bool)
      requires Valid() && ROOT_DIR_SECTOR in refs
      modifies this`inodes, this`refs, store`dev, store`freeMap, store`live, store`extra
      ensures Valid() && refs == old(refs) && store.extra == old(store.extra)
      ensures ok <==> name in old(Names())
      ensures Names() == old(Names()) - {name}
      ensures Contents() == if ok && old(Names())[name] !in store.live then old(Contents()) - {old(Names())[name]}
                            else old(Contents())
    {
      hide SysOk, IsOpen, NameMap, SlotOf, FileStore.Valid, FileStore.Synced, FileStore.Files, FileStore.Extents;
      hide NamesOf, DirOk, Slots, RootOk, FindSlot, Named, SetRange;
      SysRoot(Snap(), name);
      var found, e := Lookup(name);
      if found.None? {
        return false;
      }
      var s := EntrySector(e);
      InUseSlot(Snap(), found.value);
      InodeOpen(s);
      ok := Unlink(found.value, e);
      InodeClose(s);
    }

    /** Clears an entry's in-use byte and marks its inode, which is open, as removed. */
    method Unlink(k: nat, e: EntryBytes) returns (ok: bool)
      requires Valid() && ROOT_DIR_SECTOR in refs && EntrySector(e) in refs
      requires k < |Slots(Dir())| && Slots(Dir())[k].Entry? && e == EntryAt(Dir(), k)
      modifies this`inodes, store`dev
      ensures Valid() && ok && Names() == old(Names()) - {Slots(old(Dir()))[k].name} && Contents() == old(Contents())
    {
      hide SysOk, IsOpen, NameMap, SlotOf, FileStore.Valid, FileStore.Synced, FileStore.Files, FileStore.Extents;
      hide NamesOf, DirOk, Slots, RootOk, FindSlot, Named, SetRange;
      ghost var y := Snap();
      InUseSlot(y, k);
      var s := EntrySector(e);
      ClearedSlot(e);
      SlotReplaced(y.dir, k, e[19 := 0]);
      ok := WriteEntry(k, e[19 := 0]);
      RefIsOpen(y, s);
      OpenAt(y, s);
      var i := IndexOf(s);
      RemoveNameKeeps(y, store.Files()[ROOT_DIR_SECTOR], k, i);
      inodes := inodes[i := inodes[i].(removed := true)];
    }

    /** Gives an inode that got no name up again: its header's sector is released, its data's are not. */
    method GiveUp(sector: nat)
      requires Valid() && sector in pending && sector != FREE_MAP_SECTOR
      modifies this`pending, store`dev, store`freeMap, store`live, store`extra
      ensures Valid() && pending == old(pending) - {sector} && Dir() == old(Dir())
      ensures sector in old(store.Extents()) && Contents() == old(Contents()) - {sector}
      ensures var data := Range(old(store.Extents())[sector].0, BytesToSectors(old(store.Extents())[sector].1));
              old(store.extra) !! data && store.extra == old(store.extra) + data
    {
      hide SysOk, FileStore.Valid, FileStore.Synced, FileStore.Files, FileStore.Extents;
      hide Encode, SetRange, BytesToSectors, Named, RootOk, Unowned, RunAt;
      PendingLive(Snap(), sector);
      UnpendKeeps(Snap(), sector);
      store.HeaderAt(sector);
      store.Forget(sector);
      pending := pending - {sector};
      store.Release(sector, 1);
    }

    /** Takes a sector for a header and creates an inode there; undone if there is no room for its data. */
    method NewInode(size: nat) returns (r: Option<nat>)
      requires Valid() && size <= OFF_MAX
      modifies this`pending, store`dev, store`freeMap, store`live, store`extra
      ensures Valid() && Dir() == old(Dir()) && store.extra == old(store.extra)
      ensures r == RoomFor(old(store.freeMap), size)
      ensures r.Some? ==> r.value !in old(store.live) && pending == old(pending) + {r.value}
      ensures r.Some? ==>
        r.value in store.live && store.Extents()[r.value] == (DataStart(old(store.freeMap), size), size)
      ensures Contents() == if r.Some? then old(Contents())[r.value := Zeros(size)] else old(Contents())
      ensures r.None? ==> pending == old(pending) && store.freeMap == old(store.freeMap)
    {
      hide SysOk, FileStore.Valid, FileStore.Synced, FileStore.Files, FileStore.Extents;
      hide Encode, BytesToSectors, Named, RootOk, Unowned, RunAt, SetRange, FirstRun;
      ghost var y := Snap();
      store.HeaderAt(ROOT_DIR_SECTOR);
      r := store.Allocate(1);
      if r.Some? {
        store.HeaderAt(ROOT_DIR_SECTOR);
        assert r.value in Range(r.value, 1);
        var ok := store.CreateInode(r.value, size);
        if ok {
          PendKeeps(y, r.value, store.Extents()[r.value]);
          pending := pending + {r.value};
        } else {
          FlipBack(old(store.freeMap), r.value, 1, false);
          store.Release(r.value, 1);
          r := None;
        }
      }
    }

    /** dir_open_root and dir_close. */
    method OpenRootDir()
      requires Quiet()
      modifies this`inodes, this`refs
      ensures Valid() && refs == multiset{ROOT_DIR_SECTOR}
    {
      hide SysOk, FileStore.Valid, FileStore.Synced, FileStore.Files, FileStore.Extents;
      InodeOpen(ROOT_DIR_SECTOR);
    }

    method CloseRootDir()
      requires Valid() && ROOT_DIR_SECTOR in refs
      modifies this`inodes, this`refs, store`dev, store`freeMap, store`live, store`extra
      ensures Valid() && refs == old(refs) - multiset{ROOT_DIR_SECTOR}
      ensures Names() == old(Names()) && Contents() == old(Contents())
      ensures store.extra == old(store.extra) && store.freeMap == old(store.freeMap)
    {
      hide SysOk, FileStore.Valid, FileStore.Synced, FileStore.Files, FileStore.Extents, NamesOf, RootOk;
      InodeClose(ROOT_DIR_SECTOR);
    }

    /** With no file left and nothing leaked, every sector but the two system files' is free. */
    lemma AllSpaceBack(k: nat)
      requires Quiet() && Contents() == map[] && store.extra == {} && k < |store.freeMap|
      ensures FREE_MAP_SECTOR < |store.dev| && ROOT_DIR_SECTOR < |store.dev|
      ensures store.freeMap[k] <==> k in Sectors(store.dev, FREE_MAP_SECTOR) || k in Sectors(store.dev, ROOT_DIR_SECTOR)
    {
      hide SysOk, Layout, Accounted, Sectors;
      store.HeaderAt(ROOT_DIR_SECTOR);
      store.HeaderAt(FREE_MAP_SECTOR);
      UsedExactly(store.dev, store.freeMap, store.live, store.extra, k);
      assert forall s :: s in store.live ==> s in store.Files();
      assert store.live == {FREE_MAP_SECTOR, ROOT_DIR_SECTOR} by {
        forall s | s in store.live ensures s in {FREE_MAP_SECTOR, ROOT_DIR_SECTOR} {
          assert s !in Contents();
        }
      }
    }

    // ---------- the calls ----------

    /** filesys_create, with the root directory open. */
    method CreateIn(name: Name, size: nat) returns (ok: bool)
      requires Valid() && ROOT_DIR_SECTOR in refs && pending == {} && 0 !in name && size <= OFF_MAX
      modifies this`pending, store`dev, store`freeMap, store`live, store`extra
      ensures Valid() && pending == {}
      ensures ok <==> RoomFor(old(store.freeMap), size).Some? && ValidName(name) && name !in old(Names()) &&
                      FindFree(Slots(old(Dir())), 0).Some?
      ensures ok ==>
        name in Names() && Names()[name] !in old(Contents()) && Names() == old(Names())[name := Names()[name]]
      ensures Contents() == if ok then old(Contents())[Names()[name] := Zeros(size)] else old(Contents())
      ensures !ok ==> Names() == old(Names())
      ensures store.extra == old(store.extra) +
        if !ok && RoomFor(old(store.freeMap), size).Some?
        then Range(DataStart(old(store.freeMap), size), BytesToSectors(size)) else {}
      ensures old(store.extra) !! store.extra - old(store.extra)
    {
      hide SysOk, FileStore.Valid, FileStore.Synced, FileStore.Files, FileStore.Extents;
      hide Encode, SetRange, BytesToSectors, Named, RootOk, Unowned, RunAt, NamesOf, FindFree, Slots, FirstRun, RoomFor;
      hide ValidName, DataStart, Zeros;
      ghost var contents := Contents();
      var sector := NewInode(size);
      if sector.None? {
        return false;
      }
      PendingLive(Snap(), sector.value);
      ok := DirAdd(name, sector.value);
      if !ok {
        GiveUp(sector.value);
        assert contents[sector.value := Zeros(size)] - {sector.value} == contents;
      }
    }

    /**
     * filesys_create. A failure leaves everything callers see as it was; one that comes after
     * the data was allocated leaves the data's sectors marked used.
     */
    method Create(name: Name, size: nat) returns (ok: bool)
      requires Quiet() && 0 !in name && size <= OFF_MAX
      modifies this, store`dev, store`freeMap, store`live, store`extra
      ensures Quiet()
      ensures ok <==> RoomFor(old(store.freeMap), size).Some? && ValidName(name) && name !in old(Names()) &&
                      FindFree(Slots(old(Dir())), 0).Some?
      ensures if ok then Created(old(Look()), name, size, Look()) else Look() == old(Look())
      ensures store.extra == old(store.extra) +
        if !ok && RoomFor(old(store.freeMap), size).Some?
        then Range(DataStart(old(store.freeMap), size), BytesToSectors(size)) else {}
    {
      hide SysOk, FileStore.Valid, FileStore.Synced, FileStore.Files, FileStore.Extents;
      hide BytesToSectors, RootOk, NamesOf, FindFree, Slots, RoomFor, ValidName, DataStart, Zeros;
      OpenRootDir();
      ok := CreateIn(name, size);
      CloseRootDir();
    }

    /** dir_lookup: opens the inode that has the name. */
    method DirLookup(name: Name) returns (r: Option<nat>)
      requires Valid() && ROOT_DIR_SECTOR in refs
      modifies this`inodes, this`refs
      ensures Valid() && (r.Some? <==> name in Names())
      ensures r.Some? ==> r.value == Names()[name] > ROOT_DIR_SECTOR
      ensures refs == if r.Some? then old(refs) + multiset{r.value} else old(refs)
    {
      hide SysOk, FileStore.Valid, FileStore.Synced, FileStore.Files, FileStore.Extents;
      hide Named, RootOk, NamesOf, Slots, FindSlot, NameMap, SlotOf;
      SysRoot(Snap(), name);
      var found, e := Lookup(name);
      if found.None? {
        return None;
      }
      InUseSlot(Snap(), found.value);
      InodeOpen(EntrySector(e));
      r := Some(EntrySector(e));
    }

    /** filesys_open and file_open: a new open file `fd` at position 0. */
    method Open(name: Name, fd: nat) returns (ok: bool)
      requires Quiet() && fd !in files
      modifies this, store`dev, store`freeMap, store`live, store`extra
      ensures Quiet() && store.extra == old(store.extra)
      ensures ok <==> name in old(Names())
      ensures Look() == if ok then Opened(old(Look()), name, fd) else old(Look())
    {
      hide SysOk, FileStore.Valid, FileStore.Synced, FileStore.Files, FileStore.Extents, RootOk, NamesOf;
      OpenRootDir();
      var r := DirLookup(name);
      ghost var rest := refs - multiset{ROOT_DIR_SECTOR};
      assert rest == if r.Some? then multiset{r.value} else multiset{};
      CloseRootDir();
      ok := r.Some?;
      if ok {
        FileOpen(fd, r.value);
        assert refs == multiset{};
      }
    }

    /** file_open: takes over a reference to an inode. */
    method FileOpen(fd: nat, s: nat)
      requires Valid() && fd !in files && s in refs && s > ROOT_DIR_SECTOR
      modifies this`files, this`refs
      ensures Valid() && files == old(files)[fd := File(s, 0, false)] && refs == old(refs) - multiset{s}
    {
      hide SysOk, FileStore.Valid, FileStore.Synced, FileStore.Files, FileStore.Extents;
      FileOpenedKeeps(Snap(), fd, s);
      files, refs := files[fd := File(s, 0, false)], refs - multiset{s};
    }

    /** filesys_remove. */
    method Remove(name: Name) returns (ok: bool)
      requires Quiet()
      modifies this, store`dev, store`freeMap, store`live, store`extra
      ensures Quiet() && store.extra == old(store.extra)
      ensures ok <==> name in old(Names())
      ensures Look() == if ok then Removed(old(Look()), name) else old(Look())
    {
      hide SysOk, FileStore.Valid, FileStore.Synced, FileStore.Files, FileStore.Extents;
      hide Named, RootOk, NamesOf, Slots, NameMap, Reap;
      OpenRootDir();
      ok := DirRemove(name);
      CloseRootDir();
      KeptIsLive(Snap(), old(Contents()), Contents());
    }

    /** The inode of an open file, by its place in the list. */
    method InodeOf(fd: nat) returns (i: nat)
      requires Valid() && fd in files
      ensures i < |inodes| && inodes[i].sector == files[fd].ino > ROOT_DIR_SECTOR && files[fd].ino in store.live
      ensures store.Extents()[files[fd].ino] == (inodes[i].start, inodes[i].length)
      ensures inodes[i].denyCnt > 0 <==> Denied(files, files[fd].ino)
    {
      hide SysOk, IsOpen, FileStore.Valid, FileStore.Synced, FileStore.Files, FileStore.Extents;
      FileIsOpen(Snap(), fd);
      OpenAt(Snap(), files[fd].ino);
      i := IndexOf(files[fd].ino);
      FileInode(Snap(), fd, i);
    }

    /** Moves an open file's position. */
    method MoveTo(fd: nat, pos: nat)
      requires Quiet() && fd in files
      modifies this`files
      ensures Quiet() && Look() == Moved(old(Look()), fd, pos)
    {
      hide SysOk, NamesOf, RootOk, FileStore.Valid, FileStore.Synced, FileStore.Files, FileStore.Extents;
      FileMovedKeeps(Snap(), fd, pos);
      files := files[fd := files[fd].(pos := pos)];
    }

    /** file_read. */
    method Read(fd: nat, size: int) returns (buffer: seq<Byte>)
      requires Quiet() && fd in files
      modifies this`files
      ensures Quiet() && buffer == ReadBytes(old(Look()), fd, size)
      ensures Look() == Moved(old(Look()), fd, old(files)[fd].pos + |buffer|)
    {
      hide SysOk, NamesOf, RootOk, FileStore.Valid, FileStore.Synced, FileStore.Files, FileStore.Extents;
      var i := InodeOf(fd);
      buffer := store.ReadAt(inodes[i].sector, inodes[i].start, inodes[i].length, size, files[fd].pos);
      MoveTo(fd, files[fd].pos + |buffer|);
    }

    /** file_write. */
    method Write(fd: nat, data: seq<Byte>) returns (n: nat)
      requires Quiet() && fd in files
      modifies this`files, store`dev
      ensures Quiet() && store.extra == old(store.extra)
      ensures n == |WriteBytes(old(Look()), fd, data)|
      ensures Look() == AfterWrite(old(Look()), fd, data)
    {
      hide SysOk, NamesOf, RootOk, Denied, FileStore.Valid, FileStore.Synced, FileStore.Files, FileStore.Extents;
      var i := InodeOf(fd);
      var x := inodes[i];
      n := store.WriteAt(x.sector, x.start, x.length, x.denyCnt > 0, data, files[fd].pos);
      MoveTo(fd, files[fd].pos + n);
    }

    /** file_deny_write and file_allow_write. */
    method SetDeny(fd: nat, deny: bool)
      requires Quiet() && fd in files
      modifies this`files, this`inodes
      ensures Quiet() && Look() == WithDeny(old(Look()), fd, deny)
    {
      hide SysOk, NamesOf, RootOk, Denied, FileStore.Valid, FileStore.Synced, FileStore.Files, FileStore.Extents;
      if files[fd].denyWrite != deny {
        var i := InodeOf(fd);
        FileDeniedKeeps(Snap(), fd, deny, i);
        files := files[fd := files[fd].(denyWrite := deny)];
        var x := inodes[i];
        inodes := inodes[i := x.(denyCnt := if deny then x.denyCnt + 1 else x.denyCnt - 1)];
      }
    }

    /** file_close: writes are allowed again, and a removed file goes with its last opener. */
    method Close(fd: nat)
      requires Quiet() && fd in files
      modifies this, store`dev, store`freeMap, store`live, store`extra
      ensures Quiet() && store.extra == old(store.extra)
      ensures Look() == Closed(old(Look()), fd)
    {
      hide SysOk, NamesOf, RootOk, Reap, FileStore.Valid, FileStore.Synced, FileStore.Files, FileStore.Extents;
      SetDeny(fd, false);
      var s := files[fd].ino;
      FileClosedKeeps(Snap(), fd);
      files, refs := files - {fd}, refs + multiset{s};
      assert files == old(files) - {fd};
      InodeClose(s);
      KeptIsLive(Snap(), old(Contents()), Contents());
    }
  }

  /** Where filesys_create puts a new file's header, if header and data both fit. */
  function RoomFor(freeMap: seq<bool>, size: nat): (r: Option<nat>)
    ensures r.Some? ==> r.value < |freeMap|
  {
    var header := FirstRun(freeMap, 0, 1, false);
    if header.Some? && FirstRun(SetRange(freeMap, header.value, 1, true), 0, BytesToSectors(size), false).Some?
    then header else None
  }

  /** Where the new file's data goes. */
  function DataStart(freeMap: seq<bool>, size: nat): (start: nat)
    requires RoomFor(freeMap, size).Some?
    ensures start + BytesToSectors(size) <= |freeMap|
  {
    FirstRun(SetRange(freeMap, FirstRun(freeMap, 0, 1, false).value, 1, true), 0, BytesToSectors(size), false).value
  }
}
