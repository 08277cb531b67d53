/** Inodes on a device with a free map: who owns which sector, and what each inode holds. */
module FsStore {
  import opened Prelude
  import opened Disk
  import opened FsLayout
  import opened Bitmap

  /** The largest file size: above it, rounding up to sectors overflows off_t. */
  const OFF_MAX := INT_MAX - SECTOR_SIZE

  /** Inode `s` is on the device, its sectors are marked used, and its header is not among its data. */
  ghost predicate Sound(dev: seq<Sector>, freeMap: seq<bool>, s: nat)
    requires |dev| == |freeMap|
  {
    && InodeFits(dev, s) && freeMap[s] && !InExtent(dev, s, s)
    && forall k: nat :: k < |dev| && InExtent(dev, s, k) ==> freeMap[k]
  }

  /** Inodes `a` and `b` share no sector. */
  ghost predicate Apart(dev: seq<Sector>, a: nat, b: nat)
    requires a < |dev| && b < |dev|
  {
    !InExtent(dev, a, b) && !InExtent(dev, b, a) && forall k: nat :: !(InExtent(dev, a, k) && InExtent(dev, b, k))
  }

  /** The inodes in `live` are sound and pairwise apart. */
  ghost predicate Layout(dev: seq<Sector>, freeMap: seq<bool>, live: set<nat>) {
    && |dev| == |freeMap| < WORD
    && (forall s :: s in live ==> Sound(dev, freeMap, s))
    && (forall a, b :: a in live && b in live && a != b ==> Apart(dev, a, b))
  }

  ghost function FilesOf(dev: seq<Sector>, live: set<nat>): (r: map<nat, seq<Byte>>)
    requires forall s :: s in live ==> InodeFits(dev, s)
    ensures r.Keys == live && forall s :: s in live ==> r[s] == Data(dev, s)
  {
    map s | s in live :: Data(dev, s)
  }

  ghost function ExtentsOf(dev: seq<Sector>, live: set<nat>): (r: map<nat, (nat, nat)>)
    requires forall s :: s in live ==> s < |dev|
    ensures r.Keys == live && forall s :: s in live ==> r[s] == (Start(dev, s), Length(dev, s))
  {
    map s | s in live :: (Start(dev, s), Length(dev, s))
  }

  /** Inode `s` has nothing in sectors start to start + cnt. */
  ghost predicate ClearOf(dev: seq<Sector>, s: nat, start: nat, cnt: nat)
    requires s < |dev|
  {
    !(start <= s < start + cnt) && forall k: nat :: start <= k < start + cnt ==> !InExtent(dev, s, k)
  }

  /** No live inode has anything in sectors start to start + cnt. */
  ghost predicate Unowned(dev: seq<Sector>, live: set<nat>, start: nat, cnt: nat)
    requires forall s :: s in live ==> s < |dev|
  {
    forall s :: s in live ==> ClearOf(dev, s, start, cnt)
  }

  // ---------- how the layout survives each kind of write ----------

  lemma SameApart(dev: seq<Sector>, dev': seq<Sector>, a: nat, b: nat)
    requires a < |dev| == |dev'| && b < |dev| && Apart(dev, a, b)
    requires dev'[a] == dev[a] && dev'[b] == dev[b]
    ensures Apart(dev', a, b)
  {
    forall k: nat ensures InExtent(dev', a, k) == InExtent(dev, a, k) && InExtent(dev', b, k) == InExtent(dev, b, k) {
    }
  }

  /** A device whose live headers are unchanged has the same layout. */
  lemma LayoutSameHeaders(dev: seq<Sector>, dev': seq<Sector>, freeMap: seq<bool>, live: set<nat>)
    requires Layout(dev, freeMap, live) && |dev'| == |dev|
    requires forall s :: s in live ==> s < |dev| && dev'[s] == dev[s]
    ensures Layout(dev', freeMap, live) && ExtentsOf(dev', live) == ExtentsOf(dev, live)
  {
    forall s | s in live
      ensures Sound(dev', freeMap, s) && Start(dev', s) == Start(dev, s) && Length(dev', s) == Length(dev, s)
    {
      assert Sound(dev, freeMap, s);
    }
    forall a, b | a in live && b in live && a != b ensures Apart(dev', a, b) {
      SameApart(dev, dev', a, b);
    }
  }

  /** Writing data of inode `s` changes that file's bytes and no other file. */
  lemma WriteKeeps(dev: seq<Sector>, dev': seq<Sector>, freeMap: seq<bool>, live: set<nat>,
                   s: nat, offset: nat, d: seq<Byte>)
    requires Layout(dev, freeMap, live) && s in live && |dev'| == |dev| && InodeFits(dev, s)
    requires offset + |d| <= Length(dev, s)
    requires Flat(dev') == Splice(Flat(dev), SECTOR_SIZE * Start(dev, s) + offset, d)
    ensures Layout(dev', freeMap, live) && ExtentsOf(dev', live) == ExtentsOf(dev, live)
    ensures FilesOf(dev', live) == FilesOf(dev, live)[s := Splice(Data(dev, s), offset, d)]
  {
    assert Sound(dev, freeMap, s);
    WriteData(dev, dev', s, offset, d);
    forall t | t in live && t != s ensures SameInode(dev, dev', t) {
      assert Sound(dev, freeMap, t) && Apart(dev, s, t);
      forall k: nat | k == t || (InExtent(dev, t, k) && k < |dev|) ensures dev'[k] == dev[k] {
        WriteElsewhere(dev, dev', s, offset, d, k);
      }
    }
    LayoutSameHeaders(dev, dev', freeMap, live);
    forall t | t in live && t != s ensures Data(dev', t) == Data(dev, t) {
      SameData(dev, dev', t);
    }
  }

  /** Writing a sector no live inode owns changes no file. */
  lemma WriteUnowned(dev: seq<Sector>, freeMap: seq<bool>, live: set<nat>, k: nat, sec: Sector)
    requires Layout(dev, freeMap, live) && k < |dev| && Unowned(dev, live, k, 1)
    ensures Layout(dev[k := sec], freeMap, live) && ExtentsOf(dev[k := sec], live) == ExtentsOf(dev, live)
    ensures FilesOf(dev[k := sec], live) == FilesOf(dev, live)
  {
    var dev' := dev[k := sec];
    forall t | t in live ensures SameInode(dev, dev', t) && Data(dev', t) == Data(dev, t) {
      assert Sound(dev, freeMap, t);
      SameData(dev, dev', t);
    }
    LayoutSameHeaders(dev, dev', freeMap, live);
  }

  /** Unowned sectors may be marked either way. */
  lemma RemarkKeeps(dev: seq<Sector>, freeMap: seq<bool>, live: set<nat>, start: nat, cnt: nat, value: bool)
    requires Layout(dev, freeMap, live) && start + cnt <= |dev| && Unowned(dev, live, start, cnt)
    ensures Layout(dev, SetRange(freeMap, start, cnt, value), live)
  {
    var freeMap' := SetRange(freeMap, start, cnt, value);
    forall s | s in live ensures Sound(dev, freeMap', s) {
      assert Sound(dev, freeMap, s);
    }
  }

  /** Free sectors are unowned. */
  lemma FreeIsUnowned(dev: seq<Sector>, freeMap: seq<bool>, live: set<nat>, start: nat, cnt: nat)
    requires Layout(dev, freeMap, live) && start + cnt <= |dev| && RunAt(freeMap, start, cnt, false)
    ensures Unowned(dev, live, start, cnt)
  {
    forall s | s in live ensures ClearOf(dev, s, start, cnt) {
      assert Sound(dev, freeMap, s);
    }
  }

  lemma UnownedApart(dev: seq<Sector>, live: set<nat>, s: nat, t: nat)
    requires (forall u :: u in live ==> u < |dev|) && s < |dev| && t in live && t < |dev|
    requires Unowned(dev, live, s, 1) && Unowned(dev, live, Start(dev, s), BytesToSectors(Length(dev, s)))
    ensures Apart(dev, s, t) && Apart(dev, t, s)
  {
    forall k: nat ensures !(InExtent(dev, s, k) && InExtent(dev, t, k)) {
    }
  }

  /** A header and extent that no live inode owns can become a live inode. */
  lemma AdoptKeeps(dev: seq<Sector>, freeMap: seq<bool>, live: set<nat>, s: nat)
    requires Layout(dev, freeMap, live) && s !in live && Sound(dev, freeMap, s)
    requires Unowned(dev, live, s, 1) && Unowned(dev, live, Start(dev, s), BytesToSectors(Length(dev, s)))
    ensures Layout(dev, freeMap, live + {s})
    ensures FilesOf(dev, live + {s}) == FilesOf(dev, live)[s := Data(dev, s)]
    ensures ExtentsOf(dev, live + {s}) == ExtentsOf(dev, live)[s := (Start(dev, s), Length(dev, s))]
  {
    hide Apart, Unowned;
    forall t | t in live ensures Apart(dev, s, t) && Apart(dev, t, s) {
      assert Sound(dev, freeMap, t);
      UnownedApart(dev, live, s, t);
    }
    LiveFit(dev, freeMap, live);
  }

  lemma LiveFit(dev: seq<Sector>, freeMap: seq<bool>, live: set<nat>)
    requires Layout(dev, freeMap, live)
    ensures forall s :: s in live ==> InodeFits(dev, s)
  {
  }

  /** Dropping an inode from the live ones leaves its sectors unowned. */
  lemma DropKeeps(dev: seq<Sector>, freeMap: seq<bool>, live: set<nat>, s: nat)
    requires Layout(dev, freeMap, live) && s in live
    ensures Layout(dev, freeMap, live - {s})
    ensures s < |dev| && Unowned(dev, live - {s}, s, 1)
    ensures Unowned(dev, live - {s}, Start(dev, s), BytesToSectors(Length(dev, s)))
    ensures FilesOf(dev, live - {s}) == FilesOf(dev, live) - {s}
    ensures ExtentsOf(dev, live - {s}) == ExtentsOf(dev, live) - {s}
  {
    assert Sound(dev, freeMap, s);
    forall t | t in live - {s} ensures Apart(dev, s, t) && Sound(dev, freeMap, t) {
    }
  }

  // ---------- where the used sectors are ----------

  /** The sectors of an inode: its header and its extent. */
  function Sectors(dev: seq<Sector>, s: nat): (r: set<nat>)
    requires s < |dev|
    ensures forall k: nat :: k in r <==> k == s || InExtent(dev, s, k)
  {
    {s} + Range(Start(dev, s), BytesToSectors(Length(dev, s)))
  }

  ghost predicate Owned(dev: seq<Sector>, live: set<nat>, k: nat) {
    exists s :: s in live && s < |dev| && k in Sectors(dev, s)
  }

  /** The sectors marked used are those of the live inodes and, apart from them, those in `extra`. */
  ghost predicate Accounted(dev: seq<Sector>, freeMap: seq<bool>, live: set<nat>, extra: set<nat>) {
    && (forall k: nat :: k < |freeMap| && freeMap[k] && k !in extra ==> Owned(dev, live, k))
    && (forall k :: k in extra ==> k < |freeMap| && freeMap[k] && !Owned(dev, live, k))
  }

  lemma SameOwned(dev: seq<Sector>, dev': seq<Sector>, live: set<nat>, k: nat)
    requires forall s :: s in live ==> s < |dev| == |dev'|
    requires ExtentsOf(dev', live) == ExtentsOf(dev, live)
    ensures Owned(dev', live, k) == Owned(dev, live, k)
  {
    forall s | s in live ensures Sectors(dev', s) == Sectors(dev, s) {
      assert ExtentsOf(dev', live)[s] == ExtentsOf(dev, live)[s];
    }
  }

  lemma AccountSame(dev: seq<Sector>, dev': seq<Sector>, freeMap: seq<bool>, live: set<nat>, extra: set<nat>)
    requires forall s :: s in live ==> s < |dev| == |dev'|
    requires Accounted(dev, freeMap, live, extra) && ExtentsOf(dev', live) == ExtentsOf(dev, live)
    ensures Accounted(dev', freeMap, live, extra)
  {
    forall k: nat ensures Owned(dev', live, k) == Owned(dev, live, k) {
      SameOwned(dev, dev', live, k);
    }
  }

  lemma UnownedNotOwned(dev: seq<Sector>, live: set<nat>, start: nat, cnt: nat, k: nat)
    requires (forall s :: s in live ==> s < |dev|) && Unowned(dev, live, start, cnt) && start <= k < start + cnt
    ensures !Owned(dev, live, k)
  {
    forall s | s in live ensures k !in Sectors(dev, s) {
      assert ClearOf(dev, s, start, cnt);
    }
  }

  lemma AccountMark(dev: seq<Sector>, freeMap: seq<bool>, live: set<nat>, extra: set<nat>,
                    start: nat, cnt: nat, value: bool)
    requires Accounted(dev, freeMap, live, extra) && start + cnt <= |freeMap|
    requires (forall s :: s in live ==> s < |dev|) && Unowned(dev, live, start, cnt)
    ensures var extra' := if value then extra + Range(start, cnt) else extra - Range(start, cnt);
            Accounted(dev, SetRange(freeMap, start, cnt, value), live, extra')
  {
    forall k: nat | start <= k < start + cnt ensures !Owned(dev, live, k) {
      UnownedNotOwned(dev, live, start, cnt, k);
    }
  }

  lemma OwnedAdopt(dev: seq<Sector>, live: set<nat>, s: nat, k: nat)
    requires s < |dev|
    ensures Owned(dev, live + {s}, k) <==> Owned(dev, live, k) || k in Sectors(dev, s)
  {
    if Owned(dev, live, k) {
      var t :| t in live && t < |dev| && k in Sectors(dev, t);
      assert t in live + {s};
    }
    if k in Sectors(dev, s) {
      assert s in live + {s};
    }
  }

  lemma AccountAdopt(dev: seq<Sector>, freeMap: seq<bool>, live: set<nat>, extra: set<nat>, s: nat)
    requires Accounted(dev, freeMap, live, extra) && s < |dev|
    ensures Accounted(dev, freeMap, live + {s}, extra - Sectors(dev, s))
  {
    forall k: nat ensures Owned(dev, live + {s}, k) <==> Owned(dev, live, k) || k in Sectors(dev, s) {
      OwnedAdopt(dev, live, s, k);
    }
  }

  lemma OnlyOwner(dev: seq<Sector>, freeMap: seq<bool>, live: set<nat>, s: nat, k: nat)
    requires Layout(dev, freeMap, live) && s in live && s < |dev| && k in Sectors(dev, s)
    ensures k < |freeMap| && freeMap[k] && !Owned(dev, live - {s}, k)
  {
    assert Sound(dev, freeMap, s);
    forall t | t in live - {s} && t < |dev| ensures k !in Sectors(dev, t) {
      assert Apart(dev, s, t);
    }
  }

  /** Dropping an inode makes exactly its sectors ownerless. */
  lemma AccountDrop(dev: seq<Sector>, freeMap: seq<bool>, live: set<nat>, extra: set<nat>, s: nat)
    requires Layout(dev, freeMap, live) && Accounted(dev, freeMap, live, extra) && s in live && s < |dev|
    ensures Accounted(dev, freeMap, live - {s}, extra + Sectors(dev, s)) && extra !! Sectors(dev, s)
  {
    hide Layout, Owned, Sectors;
    assert live - {s} + {s} == live;
    forall k: nat ensures Owned(dev, live, k) <==> Owned(dev, live - {s}, k) || k in Sectors(dev, s) {
      OwnedAdopt(dev, live - {s}, s, k);
    }
    forall k | k in Sectors(dev, s) ensures k < |freeMap| && freeMap[k] && !Owned(dev, live - {s}, k) {
      OnlyOwner(dev, freeMap, live, s, k);
    }
  }

  /** A sector is marked used exactly when an inode owns it or it is extra, never both, and no two inodes own it. */
  lemma UsedExactly(dev: seq<Sector>, freeMap: seq<bool>, live: set<nat>, extra: set<nat>, k: nat)
    requires Layout(dev, freeMap, live) && Accounted(dev, freeMap, live, extra) && k < |freeMap|
    ensures freeMap[k] <==> k in extra || Owned(dev, live, k)
    ensures !(k in extra && Owned(dev, live, k))
    ensures forall a, b :: a in live && b in live && k in Sectors(dev, a) && k in Sectors(dev, b) ==> a == b
  {
    if Owned(dev, live, k) {
      var s :| s in live && s < |dev| && k in Sectors(dev, s);
      OnlyOwner(dev, freeMap, live, s, k);
    }
    forall a, b | a in live && b in live && a != b ensures !(k in Sectors(dev, a) && k in Sectors(dev, b)) {
      assert Apart(dev, a, b);
    }
  }

  lemma FreeNotExtra(dev: seq<Sector>, freeMap: seq<bool>, live: set<nat>, extra: set<nat>, start: nat, cnt: nat)
    requires Accounted(dev, freeMap, live, extra) && start + cnt <= |freeMap| && RunAt(freeMap, start, cnt, false)
    ensures extra !! Range(start, cnt)
  {
  }

  // ---------- reads and writes of one file ----------

  /** What reading `size` bytes at `offset` of a file returns. */
  function Slice(f: seq<Byte>, size: int, offset: nat): (r: seq<Byte>)
    ensures |r| == Transfer(|f|, size, offset)
  {
    var n := Transfer(|f|, size, offset);
    if n == 0 then [] else f[offset..offset + n]
  }

  /** How much of `data` fits in a file at `offset`. */
  function Fitting(f: seq<Byte>, offset: nat, data: seq<Byte>): (d: seq<Byte>)
    ensures d == [] || offset + |d| <= |f|
  {
    data[..Transfer(|f|, |data|, offset)]
  }

  /** The file after writing `data` at `offset`: what lies past its end is dropped. */
  function Written(f: seq<Byte>, offset: nat, data: seq<Byte>): (r: seq<Byte>)
    ensures |r| == |f|
  {
    var d := Fitting(f, offset, data);
    if d == [] then f else Splice(f, offset, d)
  }

  /** Reading back a write gives the bytes that were written. */
  lemma ReadWritten(f: seq<Byte>, offset: nat, data: seq<Byte>)
    ensures Slice(Written(f, offset, data), |data|, offset) == Fitting(f, offset, data)
  {
  }

  lemma LiveOnDevice(dev: seq<Sector>, freeMap: seq<bool>, live: set<nat>, s: nat)
    requires Layout(dev, freeMap, live) && s in live
    ensures InodeFits(dev, s) && OnDevice(dev, Start(dev, s), Length(dev, s))
    ensures forall t :: t in live ==> InodeFits(dev, t)
  {
    assert Sound(dev, freeMap, s);
  }

  lemma ReadSlice(dev: seq<Sector>, s: nat, size: int, offset: nat, buffer: seq<Byte>)
    requires InodeFits(dev, s) && |buffer| == Transfer(Length(dev, s), size, offset)
    requires var a := SECTOR_SIZE * Start(dev, s) + offset;
             |buffer| > 0 ==> a + |buffer| <= SECTOR_SIZE * |dev| && buffer == Flat(dev)[a..a + |buffer|]
    ensures buffer == Slice(Data(dev, s), size, offset)
  {
  }

  lemma ZeroData(dev: seq<Sector>, s: nat)
    requires InodeFits(dev, s)
    requires forall k: nat :: k < |dev| && InExtent(dev, s, k) ==> dev[k] == ZERO_SECTOR
    ensures Data(dev, s) == Zeros(Length(dev, s))
  {
    var a := SECTOR_SIZE * Start(dev, s);
    forall i | a <= i < a + Length(dev, s) ensures Flat(dev)[i] == 0 {
      assert InExtent(dev, s, i / SECTOR_SIZE);
    }
  }

  /** The device, the free map in memory, and the open free map file (its inode's start and length). */
  class FileStore {
    var dev: seq<Sector>
    var freeMap: seq<bool>
    var mapOpen: bool
    var mapStart: nat
    var mapLength: nat
    ghost var live: set<nat>
    ghost var extra: set<nat>

    /** free_map_init on a device of at least two sectors. */
    constructor (dev: seq<Sector>)
      requires 2 <= |dev| < WORD
      ensures Valid() && Synced() && !mapOpen && this.dev == dev && live == {}
      ensures extra == {FREE_MAP_SECTOR, ROOT_DIR_SECTOR} && freeMap == SetRange(seq(|dev|, _ => false), 0, 2, true)
    {
      this.dev, mapOpen, mapStart, mapLength := dev, false, 0, 0;
      freeMap := SetRange(seq(|dev|, _ => false), 0, 2, true);
      live, extra := {}, {FREE_MAP_SECTOR, ROOT_DIR_SECTOR};
    }

    /** free_map_open on a device whose free map file holds `bits`: the map in memory is read from disk. */
    constructor Open(dev: seq<Sector>, ghost bits: seq<bool>, ghost live: set<nat>, ghost extra: set<nat>)
      requires Layout(dev, bits, live) && Accounted(dev, bits, live, extra) && FREE_MAP_SECTOR in live
      requires FilesOf(dev, live)[FREE_MAP_SECTOR] == Encode(bits)
      ensures Valid() && Synced() && mapOpen && this.dev == dev && freeMap == bits
      ensures this.live == live && this.extra == extra
    {
      hide Layout, Accounted, Encode;
      LiveOnDevice(dev, bits, live, FREE_MAP_SECTOR);
      SameLength(dev, bits, live);
      var start, length := Start(dev, FREE_MAP_SECTOR), Length(dev, FREE_MAP_SECTOR);
      var bytes := InodeReadAt(dev, start, length, ByteCount(|dev|), 0);
      ReadSlice(dev, FREE_MAP_SECTOR, ByteCount(|dev|), 0, bytes);
      assert bytes == Encode(bits);
      DecodeEncode(bits);
      this.dev, mapOpen, mapStart, mapLength := dev, true, start, length;
      freeMap := Decode(bytes, |dev|);
      this.live, this.extra := live, extra;
    }

    /** Opens the free map file just created. */
    method OpenMap()
      requires Valid() && FREE_MAP_SECTOR in live && Extents()[FREE_MAP_SECTOR].1 == ByteCount(|freeMap|)
      modifies this`mapOpen, this`mapStart, this`mapLength
      ensures Valid() && mapOpen && Files() == old(Files()) && Extents() == old(Extents())
    {
      hide Layout, Accounted;
      SameLength(dev, freeMap, live);
      mapOpen, mapStart, mapLength := true, Start(dev, FREE_MAP_SECTOR), Length(dev, FREE_MAP_SECTOR);
    }

    ghost predicate Valid()
      reads this
    {
      && Layout(dev, freeMap, live) && Accounted(dev, freeMap, live, extra)
      && (mapOpen ==>
            && FREE_MAP_SECTOR in live && ExtentsOf(dev, live)[FREE_MAP_SECTOR] == (mapStart, mapLength)
            && mapLength == ByteCount(|freeMap|))
    }

    ghost function Files(): (r: map<nat, seq<Byte>>)
      requires Valid()
      reads this
      ensures r.Keys == live
    {
      FilesOf(dev, live)
    }

    ghost function Extents(): (r: map<nat, (nat, nat)>)
      requires Valid()
      reads this
      ensures r.Keys == live
    {
      ExtentsOf(dev, live)
    }

    /** The files with the current free map in the free map file, if that is open. */
    ghost function Recorded(files: map<nat, seq<Byte>>): map<nat, seq<Byte>>
      reads this
    {
      if mapOpen then files[FREE_MAP_SECTOR := Encode(freeMap)] else files
    }

    /** The free map file, if open, holds the free map. */
    ghost predicate Synced()
      reads this
    {
      Valid() && (mapOpen ==> Files()[FREE_MAP_SECTOR] == Encode(freeMap))
    }

    /** A live inode's header is on the device and gives its extent. */
    lemma HeaderAt(s: nat)
      requires Valid() && s in live
      ensures s < |dev| == |freeMap| < WORD && Extents()[s] == (Start(dev, s), Length(dev, s))
    {
      SameLength(dev, freeMap, live);
    }

    /** A sector marked used for no inode can take a new inode's header. */
    lemma ExtraUnowned(k: nat)
      requires Valid() && k in extra
      ensures k < |dev| && freeMap[k] && k !in live && Unowned(dev, live, k, 1)
    {
      SameLength(dev, freeMap, live);
      NotOwned(dev, live, k);
    }

    method ReadAt(s: nat, start: nat, length: nat, size: int, offset: nat) returns (buffer: seq<Byte>)
      requires Valid() && s in live && Extents()[s] == (start, length)
      ensures buffer == Slice(Files()[s], size, offset)
    {
      hide Layout, Accounted;
      LiveOnDevice(dev, freeMap, live, s);
      buffer := InodeReadAt(dev, start, length, size, offset);
      ReadSlice(dev, s, size, offset, buffer);
    }

    method WriteAt(s: nat, start: nat, length: nat, denied: bool, data: seq<Byte>, offset: nat) returns (n: nat)
      requires Valid() && s in live && Extents()[s] == (start, length)
      modifies this`dev
      ensures Valid() && Extents() == old(Extents())
      ensures s != FREE_MAP_SECTOR && old(Synced()) ==> Synced()
      ensures n == if denied then 0 else |Fitting(old(Files())[s], offset, data)|
      ensures Files() == if denied then old(Files()) else old(Files())[s := Written(old(Files())[s], offset, data)]
    {
      hide Layout, Accounted, InodeFits, Data, OnDevice;
      ghost var dev0 := dev;
      LiveOnDevice(dev, freeMap, live, s);
      dev, n := InodeWriteAt(dev, start, length, denied, data, offset);
      if n > 0 {
        WriteKeeps(dev0, dev, freeMap, live, s, offset, data[..n]);
        SameLength(dev, freeMap, live);
        AccountSame(dev0, dev, freeMap, live, extra);
      }
    }

    /** bitmap_write: the whole bitmap over the whole free map file. */
    method BitmapWrite() returns (ok: bool)
      requires Valid() && mapOpen
      modifies this`dev
      ensures ok && Valid() && Synced() && Extents() == old(Extents())
      ensures Files() == Recorded(old(Files()))
    {
      hide Layout, Accounted;
      var bytes := Encode(freeMap);
      var n := WriteAt(FREE_MAP_SECTOR, mapStart, mapLength, false, bytes, 0);
      assert bytes[..|bytes|] == bytes;
      assert Written(old(Files())[FREE_MAP_SECTOR], 0, bytes) == bytes;
      ok := n == |bytes|;
    }

    /** free_map_allocate: first fit. */
    method Allocate(cnt: nat) returns (r: Option<nat>)
      requires Synced()
      modifies this`dev, this`freeMap, this`extra
      ensures Valid() && Synced() && Extents() == old(Extents())
      ensures extra == if r.Some? then old(extra) + Range(r.value, cnt) else old(extra)
      ensures r.Some? ==> old(extra) !! Range(r.value, cnt) && live !! Range(r.value, cnt)
      ensures r == FirstRun(old(freeMap), 0, cnt, false)
      ensures r.None? ==> freeMap == old(freeMap) && dev == old(dev)
      ensures r.Some? ==> freeMap == SetRange(old(freeMap), r.value, cnt, true) && RunAt(freeMap, r.value, cnt, true)
      ensures r.Some? ==> Unowned(dev, live, r.value, cnt)
      ensures Files() == Recorded(old(Files()))
    {
      hide Unowned, SetRange, Encode, Layout, RunAt, Accounted;
      SameLength(dev, freeMap, live);
      var bits;
      bits, r := BitmapScanAndFlip(freeMap, 0, cnt, false);
      if r.Some? {
        FreeIsUnowned(dev, freeMap, live, r.value, cnt);
        RemarkKeeps(dev, freeMap, live, r.value, cnt, true);
        AccountMark(dev, freeMap, live, extra, r.value, cnt, true);
        FreeNotExtra(dev, freeMap, live, extra, r.value, cnt);
        freeMap, extra := bits, extra + Range(r.value, cnt);
        if mapOpen {
          var ok := BitmapWrite();
          if !ok {
            assert false;
          }
        }
        SameLength(dev, freeMap, live);
        SameUnowned(old(dev), dev, live, r.value, cnt);
        UnownedNotLive(dev, live, r.value, cnt);
        MarkedRun(old(freeMap), r.value, cnt, true);
      }
    }

    /** free_map_release. */
    method Release(start: nat, cnt: nat)
      requires Synced() && mapOpen && start + cnt <= |freeMap| && RunAt(freeMap, start, cnt, true)
      requires Unowned(dev, live, start, cnt)
      modifies this`dev, this`freeMap, this`extra
      ensures Valid() && Synced() && Extents() == old(Extents()) && extra == old(extra) - Range(start, cnt)
      ensures freeMap == SetRange(old(freeMap), start, cnt, false)
      ensures Files() == Recorded(old(Files()))
    {
      hide Layout, Accounted;
      SameLength(dev, freeMap, live);
      RemarkKeeps(dev, freeMap, live, start, cnt, false);
      AccountMark(dev, freeMap, live, extra, start, cnt, false);
      extra := extra - Range(start, cnt);
      freeMap := BitmapSetMultiple(freeMap, start, cnt, false);
      var _ := BitmapWrite();
    }

    /** inode_create, in a header sector that is taken but belongs to no inode. */
    method CreateInode(sector: nat, length: nat) returns (ok: bool)
      requires Synced() && sector < |dev| && freeMap[sector] && length <= OFF_MAX
      requires sector !in live && Unowned(dev, live, sector, 1)
      modifies this`dev, this`freeMap, this`live, this`extra
      ensures Valid() && Synced() && extra == if ok then old(extra) - {sector} else old(extra)
      ensures var run := FirstRun(old(freeMap), 0, BytesToSectors(length), false);
              && ok == run.Some?
              && (ok ==>
                   && freeMap == SetRange(old(freeMap), run.value, BytesToSectors(length), true)
                   && live == old(live) + {sector}
                   && Files() == Recorded(old(Files()))[sector := Zeros(length)]
                   && Extents() == old(Extents())[sector := (run.value, length)])
      ensures !ok ==> dev == old(dev) && freeMap == old(freeMap) && live == old(live)
    {
      hide Unowned, SetRange, Encode, Layout, Accounted;
      var sectors := BytesToSectors(length);
      SameLength(dev, freeMap, live);
      var r := Allocate(sectors);
      if r.None? {
        return false;
      }
      SameLength(dev, freeMap, live);
      SameUnowned(old(dev), dev, live, sector, 1);
      WriteInode(sector, r.value, length);
      ok := true;
    }

    /** Zeroes sectors no live inode owns. */
    method ZeroSectors(start: nat, sectors: nat)
      requires Synced() && start + sectors <= |dev| && Unowned(dev, live, start, sectors)
      modifies this`dev
      ensures Valid() && Synced() && Files() == old(Files()) && Extents() == old(Extents()) && |dev| == |old(dev)|
      ensures forall k :: 0 <= k < |dev| ==> dev[k] == if start <= k < start + sectors then ZERO_SECTOR else old(dev)[k]
    {
      hide Unowned, Encode, Layout, Start, Length, Data, Accounted;
      var i := 0;
      while i < sectors
        invariant 0 <= i <= sectors && |dev| == |old(dev)|
        invariant Synced() && Files() == old(Files()) && Extents() == old(Extents())
        invariant forall k :: 0 <= k < |dev| ==> dev[k] == if start <= k < start + i then ZERO_SECTOR else old(dev)[k]
      {
        SameLength(dev, freeMap, live);
        SameUnowned(old(dev), dev, live, start, sectors);
        UnownedPart(dev, live, start, sectors, start + i);
        WriteUnowned(dev, freeMap, live, start + i, ZERO_SECTOR);
        AccountSame(dev, dev[start + i := ZERO_SECTOR], freeMap, live, extra);
        dev := dev[start + i := ZERO_SECTOR];
        i := i + 1;
      }
    }

    /** The header and the zeroed data of a new inode. */
    method WriteInode(sector: nat, start: nat, length: nat)
      requires Synced() && sector < |dev| && freeMap[sector] && length <= OFF_MAX
      requires sector !in live && Unowned(dev, live, sector, 1)
      requires start + BytesToSectors(length) <= |freeMap| && RunAt(freeMap, start, BytesToSectors(length), true)
      requires Unowned(dev, live, start, BytesToSectors(length)) && !(start <= sector < start + BytesToSectors(length))
      modifies this`dev, this`live, this`extra
      ensures Valid() && Synced() && live == old(live) + {sector}
      ensures extra == old(extra) - ({sector} + Range(start, BytesToSectors(length)))
      ensures Files() == old(Files())[sector := Zeros(length)]
      ensures Extents() == old(Extents())[sector := (start, length)]
    {
      hide Unowned, Encode, Layout, Start, Length, Data, InodeFits, InExtent, BytesToSectors, RunAt, Sound, Accounted;
      SameLength(dev, freeMap, live);
      WriteUnowned(dev, freeMap, live, sector, HeaderSector(start, length));
      AccountSame(dev, dev[sector := HeaderSector(start, length)], freeMap, live, extra);
      dev := dev[sector := HeaderSector(start, length)];
      SameUnowned(old(dev), dev, live, start, BytesToSectors(length));
      ZeroSectors(start, BytesToSectors(length));
      SameUnowned(old(dev), dev, live, sector, 1);
      SameUnowned(old(dev), dev, live, start, BytesToSectors(length));
      NewInode(dev, freeMap, sector, start, length);
      AdoptKeeps(dev, freeMap, live, sector);
      AccountAdopt(dev, freeMap, live, extra, sector);
      live, extra := live + {sector}, extra - Sectors(dev, sector);
    }

    /** Stops counting an inode as live: its sectors stay marked used. */
    ghost method Forget(s: nat)
      requires Synced() && s in live && (mapOpen ==> s != FREE_MAP_SECTOR)
      modifies this`live, this`extra
      ensures Valid() && Synced() && live == old(live) - {s} && s < |dev|
      ensures Files() == old(Files()) - {s} && Extents() == old(Extents()) - {s}
      ensures var data := Range(old(Extents())[s].0, BytesToSectors(old(Extents())[s].1));
              old(extra) !! {s} + data && s !in data && extra == old(extra) + ({s} + data)
      ensures Unowned(dev, live, s, 1) && RunAt(freeMap, s, 1, true)
      ensures var (start, length) := old(Extents())[s];
              && s < |freeMap| && start + BytesToSectors(length) <= |freeMap|
              && Unowned(dev, live, start, BytesToSectors(length))
              && RunAt(SetRange(freeMap, s, 1, false), start, BytesToSectors(length), true)
    {
      hide Unowned, Encode, Layout, Start, Length, BytesToSectors, SetRange, Accounted;
      SoundRuns(dev, freeMap, live, s);
      DropKeeps(dev, freeMap, live, s);
      AccountDrop(dev, freeMap, live, extra, s);
      live, extra := live - {s}, extra + Sectors(dev, s);
    }

    /** Takes a removed inode's header back into the free map; its data sectors stay marked. */
    method ReleaseHeader(s: nat, start: nat, length: nat)
      requires Synced() && mapOpen && s in live && s != FREE_MAP_SECTOR && Extents()[s] == (start, length)
      modifies this`dev, this`freeMap, this`live, this`extra
      ensures Valid() && Synced() && live == old(live) - {s}
      ensures old(extra) !! Range(start, BytesToSectors(length))
      ensures extra == old(extra) + Range(start, BytesToSectors(length))
      ensures s < |old(freeMap)| && freeMap == SetRange(old(freeMap), s, 1, false)
      ensures start + BytesToSectors(length) <= |freeMap| && RunAt(freeMap, start, BytesToSectors(length), true)
      ensures Unowned(dev, live, start, BytesToSectors(length))
      ensures Files() == Recorded(old(Files()) - {s}) && Extents() == old(Extents()) - {s}
    {
      hide Unowned, Encode, Layout, Start, Length, BytesToSectors, RunAt, SetRange, Accounted;
      Forget(s);
      HeaderBack(old(extra), s, start, BytesToSectors(length));
      SameLength(dev, freeMap, live);
      Release(s, 1);
      SameLength(dev, freeMap, live);
      SameUnowned(old(dev), dev, live, start, BytesToSectors(length));
    }

    /** Takes a removed inode's header and data back into the free map. */
    method ReleaseInode(s: nat, start: nat, length: nat)
      requires Synced() && mapOpen && s in live && s != FREE_MAP_SECTOR && Extents()[s] == (start, length)
      modifies this`dev, this`freeMap, this`live, this`extra
      ensures Valid() && Synced() && live == old(live) - {s} && extra == old(extra)
      ensures s < |old(freeMap)| && start + BytesToSectors(length) <= |old(freeMap)|
      ensures freeMap == SetRange(SetRange(old(freeMap), s, 1, false), start, BytesToSectors(length), false)
      ensures Files() == Recorded(old(Files()) - {s}) && Extents() == old(Extents()) - {s}
    {
      hide Unowned, Encode, BytesToSectors, RunAt, SetRange, Valid, Synced, Files, Extents;
      ReleaseHeader(s, start, length);
      Release(start, BytesToSectors(length));
      DataBack(old(extra), start, BytesToSectors(length));
    }
  }

  lemma HeaderBack(extra: set<nat>, s: nat, start: nat, cnt: nat)
    requires extra !! {s} + Range(start, cnt) && s !in Range(start, cnt)
    ensures extra + ({s} + Range(start, cnt)) - Range(s, 1) == extra + Range(start, cnt)
  {
    assert Range(s, 1) == {s};
  }

  lemma DataBack(extra: set<nat>, start: nat, cnt: nat)
    requires extra !! Range(start, cnt)
    ensures extra + Range(start, cnt) - Range(start, cnt) == extra
  {
  }

  /** A header over zeroed, used sectors makes a sound inode full of zeros. */
  lemma NewInode(dev: seq<Sector>, freeMap: seq<bool>, s: nat, start: nat, length: nat)
    requires |dev| == |freeMap| < WORD && length <= OFF_MAX && s < |dev| && freeMap[s]
    requires dev[s] == HeaderSector(start, length) && start + BytesToSectors(length) <= |dev|
    requires RunAt(freeMap, start, BytesToSectors(length), true) && !(start <= s < start + BytesToSectors(length))
    requires forall k :: start <= k < start + BytesToSectors(length) ==> dev[k] == ZERO_SECTOR
    ensures Sound(dev, freeMap, s) && Start(dev, s) == start && Length(dev, s) == length
    ensures Data(dev, s) == Zeros(length)
  {
    HeaderRoundTrip(dev, s, start, length);
    ZeroData(dev, s);
  }

  lemma UnownedNotLive(dev: seq<Sector>, live: set<nat>, start: nat, cnt: nat)
    requires (forall s :: s in live ==> s < |dev|) && Unowned(dev, live, start, cnt)
    ensures live !! Range(start, cnt)
  {
    forall s | s in live ensures s !in Range(start, cnt) {
      assert ClearOf(dev, s, start, cnt);
    }
  }

  lemma MarkedRun(bits: seq<bool>, start: nat, cnt: nat, value: bool)
    requires start + cnt <= |bits|
    ensures RunAt(SetRange(bits, start, cnt, value), start, cnt, value)
  {
  }

  lemma NotOwned(dev: seq<Sector>, live: set<nat>, k: nat)
    requires (forall s :: s in live ==> s < |dev|) && !Owned(dev, live, k)
    ensures k !in live && Unowned(dev, live, k, 1)
  {
    forall s | s in live ensures s != k && ClearOf(dev, s, k, 1) {
      assert k !in Sectors(dev, s);
    }
  }

  lemma SameLength(dev: seq<Sector>, freeMap: seq<bool>, live: set<nat>)
    requires Layout(dev, freeMap, live)
    ensures |dev| == |freeMap| < WORD && forall s :: s in live ==> s < |dev|
  {
  }

  lemma UnownedPart(dev: seq<Sector>, live: set<nat>, start: nat, cnt: nat, k: nat)
    requires (forall s :: s in live ==> s < |dev|) && Unowned(dev, live, start, cnt) && start <= k < start + cnt
    ensures Unowned(dev, live, k, 1)
  {
    forall s | s in live ensures ClearOf(dev, s, k, 1) {
      assert ClearOf(dev, s, start, cnt);
    }
  }

  /** A live inode's sectors are all marked used, its header apart from its data. */
  lemma SoundRuns(dev: seq<Sector>, freeMap: seq<bool>, live: set<nat>, s: nat)
    requires Layout(dev, freeMap, live) && s in live
    ensures s < |dev| == |freeMap| && Start(dev, s) + BytesToSectors(Length(dev, s)) <= |dev|
    ensures Sound(dev, freeMap, s) && RunAt(freeMap, s, 1, true) && !InExtent(dev, s, s)
    ensures RunAt(SetRange(freeMap, s, 1, false), Start(dev, s), BytesToSectors(Length(dev, s)), true)
  {
    assert Sound(dev, freeMap, s);
    forall k: nat | Start(dev, s) <= k < Start(dev, s) + BytesToSectors(Length(dev, s)) ensures freeMap[k] && k != s {
      assert InExtent(dev, s, k);
    }
  }

  /** Ownership depends on the extents alone. */
  lemma SameUnowned(dev: seq<Sector>, dev': seq<Sector>, live: set<nat>, start: nat, cnt: nat)
    requires forall s :: s in live ==> s < |dev| == |dev'|
    requires ExtentsOf(dev', live) == ExtentsOf(dev, live) && Unowned(dev, live, start, cnt)
    ensures Unowned(dev', live, start, cnt)
  {
    forall s | s in live ensures ClearOf(dev', s, start, cnt) {
      assert ExtentsOf(dev', live)[s] == ExtentsOf(dev, live)[s] && ClearOf(dev, s, start, cnt);
      forall k: nat ensures InExtent(dev', s, k) == InExtent(dev, s, k) {
      }
    }
  }
}
