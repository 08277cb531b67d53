/** Formatting a device, and mounting one again. */
module FsMount {
  import opened Prelude
  import opened Disk
  import opened FsLayout
  import opened FsDirectory
  import opened FsTable
  import opened FsSystem
  import opened FsStore
  import opened FsSpec
  import opened FileSys
  import opened Bitmap

  const ROOT_ENTRIES := 16

  /** Sectors of the free map file's data on a device of `n` sectors. */
  function MapSectors(n: nat): nat {
    BytesToSectors(ByteCount(n))
  }

  /** `n` bits of which the first `used` are set. */
  function Prefix(n: nat, used: nat): (r: seq<bool>)
    ensures |r| == n && forall i :: 0 <= i < n ==> r[i] == (i < used)
  {
    seq(n, i => i < used)
  }

  /** First fit after a solid prefix. */
  lemma {:induction false} FitAfterPrefix(n: nat, used: nat, cnt: nat, i: nat)
    requires used <= n && cnt > 0 && i <= used
    ensures FirstRun(Prefix(n, used), i, cnt, false) == if used + cnt <= n then Some(used) else None
    decreases used - i
  {
    if i < used {
      FitAfterPrefix(n, used, cnt, i + 1);
      assert i + cnt <= n ==> Prefix(n, used)[i];
    }
  }

  lemma MarkAfterPrefix(n: nat, used: nat, cnt: nat)
    requires used + cnt <= n
    ensures SetRange(Prefix(n, used), used, cnt, true) == Prefix(n, used + cnt)
  {
  }

  /** do_format and filesys_init: an empty file system, or a panic for want of room. */
  method Format(dev: seq<Sector>) returns (r: Option<FileSystem>)
    requires 2 <= |dev| < WORD
    ensures r.Some? <==> MapSectors(|dev|) + 3 <= |dev|
    ensures r.Some? ==> fresh(r.value) && fresh(r.value.store) && r.value.Quiet()
    ensures r.Some? ==> r.value.Look() == View(map[], map[], map[]) && r.value.store.extra == {}
    ensures r.Some? ==> |r.value.Dir()| == 16 * 20
  {
    hide FileStore.Valid, FileStore.Synced, FileStore.Files, FileStore.Extents;
    hide SysOk, Encode, SetRange, FirstRun, BytesToSectors, Unowned, RootOk, Named, NamesOf, Slots, Layout, Accounted;
    var store := new FileStore(dev);
    FormatRuns(|dev|);
    store.ExtraUnowned(FREE_MAP_SECTOR);
    var ok := store.CreateInode(FREE_MAP_SECTOR, ByteCount(|dev|));
    if !ok {
      return None;
    }
    store.OpenMap();
    var _ := store.BitmapWrite();
    store.ExtraUnowned(ROOT_DIR_SECTOR);
    ok := store.CreateInode(ROOT_DIR_SECTOR, ROOT_ENTRIES * ENTRY_SIZE);
    if !ok {
      return None;
    }
    EmptyRoot();
    var mounted := Reopen(store);
    var fs := new FileSystem(mounted);
    r := Some(fs);
  }

  lemma FormatRuns(n: nat)
    requires 2 <= n < WORD
    ensures BytesToSectors(ROOT_ENTRIES * ENTRY_SIZE) == 1
    ensures var bits, cnt := SetRange(seq(n, _ => false), 0, 2, true), MapSectors(n);
            && cnt > 0
            && FirstRun(bits, 0, cnt, false) == (if 2 + cnt <= n then Some(2) else None)
            && (2 + cnt <= n ==>
                 FirstRun(SetRange(bits, 2, cnt, true), 0, 1, false) == if 3 + cnt <= n then Some(2 + cnt) else None)
  {
    var bits, cnt := SetRange(seq(n, _ => false), 0, 2, true), MapSectors(n);
    assert bits == Prefix(n, 2);
    FitAfterPrefix(n, 2, cnt, 0);
    if 2 + cnt <= n {
      MarkAfterPrefix(n, 2, cnt);
      FitAfterPrefix(n, 2 + cnt, 1, 0);
    }
  }

  lemma EmptyRoot()
    ensures var d := Zeros(ROOT_ENTRIES * ENTRY_SIZE);
            RootOk(d) && NamesOf(d) == map[] && Named(d) == {}
  {
    EmptyDirectory(ROOT_ENTRIES * ENTRY_SIZE);
  }

  /** free_map_close and free_map_open: the same store, its free map read back from disk. */
  method Reopen(store: FileStore) returns (again: FileStore)
    requires store.Valid() && store.Synced() && store.mapOpen
    ensures fresh(again) && again.Valid() && again.Synced() && again.mapOpen && again.live == store.live
    ensures again.freeMap == store.freeMap && again.extra == store.extra
    ensures again.Files() == store.Files() && again.Extents() == store.Extents()
  {
    hide Layout, Accounted, Encode;
    again := new FileStore.Open(store.dev, store.freeMap, store.live, store.extra);
  }

  // ---------- starting again from the disk ----------

  /** The sectors marked used that none of `live` owns. */
  ghost function Ownerless(dev: seq<Sector>, freeMap: seq<bool>, live: set<nat>): set<nat> {
    set k: nat | k < |freeMap| && freeMap[k] && !Owned(dev, live, k)
  }

  lemma LayoutPart(dev: seq<Sector>, freeMap: seq<bool>, live: set<nat>, extra: set<nat>, part: set<nat>)
    requires Layout(dev, freeMap, live) && Accounted(dev, freeMap, live, extra) && part <= live
    ensures Layout(dev, freeMap, part) && Accounted(dev, freeMap, part, Ownerless(dev, freeMap, part))
    ensures FilesOf(dev, part) == map s | s in part :: FilesOf(dev, live)[s]
    ensures part == live ==> Ownerless(dev, freeMap, part) == extra
  {
    hide Owned, Sound, Apart;
    LiveFit(dev, freeMap, live);
  }

  /**
   * filesys_done and filesys_init without formatting: names and named files are as they were,
   * files that were open without a name are gone, and nothing is open.
   */
  method Remount(fs: FileSystem) returns (again: FileSystem)
    requires fs.Quiet()
    ensures fresh(again) && again.Quiet() && again.Look() == Reap(fs.Look().(files := map[]))
    ensures again.store.freeMap == fs.store.freeMap
    ensures fs.files == map[] ==> again.Look() == fs.Look() && again.store.extra == fs.store.extra
  {
    hide SysOk, Layout, Accounted, Encode, RootOk, Named, NamesOf, Reap;
    var store := fs.store;
    ghost var y := fs.Snap();
    SysRoot(y, []);
    ghost var part := {FREE_MAP_SECTOR, ROOT_DIR_SECTOR} + Named(y.dir);
    NamedLive(y);
    ghost var extra := Ownerless(store.dev, store.freeMap, part);
    LayoutPart(store.dev, store.freeMap, store.live, store.extra, part);
    var mounted := new FileStore.Open(store.dev, store.freeMap, part, extra);
    again := new FileSystem(mounted);
    KeptIsLive(again.Snap(), fs.Contents(), again.Contents());
    if fs.files == map[] {
      KeptIsLive(y, fs.Contents(), fs.Contents());
    }
  }

  /** Named inodes are live, and with no file open there are no others. */
  lemma NamedLive(y: Sys)
    requires SysOk(y) && y.refs == multiset{} && y.pending == {}
    ensures RootOk(y.dir) && {FREE_MAP_SECTOR, ROOT_DIR_SECTOR} + Named(y.dir) <= y.live
    ensures y.files == map[] ==> {FREE_MAP_SECTOR, ROOT_DIR_SECTOR} + Named(y.dir) == y.live
  {
    hide Table, CountsOk, Named, RootOk, TableOk, FilesOk;
    if y.files == map[] {
      forall s | s in Table(y.inodes) ensures false {
        OpenIff(Table(y.inodes), y.files, y.refs, s);
      }
    }
  }
}
