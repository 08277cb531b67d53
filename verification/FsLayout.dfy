/** What the file system keeps on disk: inode headers, file data and directory entries. */
module FsLayout {
  import opened Prelude
  import opened CStrings
  import opened LittleEndian
  import opened Disk

  const FREE_MAP_SECTOR := 0
  const ROOT_DIR_SECTOR := 1
  const INODE_MAGIC := 0x494e4f44
  const NAME_MAX := 14
  const ENTRY_SIZE := 20

  // ---------- inodes ----------

  /** The sector inode_create writes for a file of `length` bytes from `start`. */
  function HeaderSector(start: nat, length: nat): Sector {
    Le32(start) + Le32(length) + Le32(INODE_MAGIC) + Zeros(500)
  }

  function Start(dev: seq<Sector>, s: nat): nat
    requires s < |dev|
  {
    FromLe32(dev[s][0..4])
  }

  function Length(dev: seq<Sector>, s: nat): nat
    requires s < |dev|
  {
    FromLe32(dev[s][4..8])
  }

  lemma HeaderRoundTrip(dev: seq<Sector>, s: nat, start: nat, length: nat)
    requires s < |dev| && dev[s] == HeaderSector(start, length) && start < WORD && length < WORD
    ensures Start(dev, s) == start && Length(dev, s) == length
  {
    Le32RoundTrip(start);
    Le32RoundTrip(length);
    assert dev[s][0..4] == Le32(start) && dev[s][4..8] == Le32(length);
  }

  /** The header on disk, as struct inode_disk lays it out: start, length, magic, and nothing else. */
  lemma HeaderBytes(start: nat, length: nat)
    ensures var h := HeaderSector(start, length);
            && |h| == 512 && h[0..4] == Le32(start) && h[4..8] == Le32(length)
            && h[8..12] == [0x44, 0x4f, 0x4e, 0x49] && forall i :: 12 <= i < 512 ==> h[i] == 0
  {
  }

  function BytesToSectors(size: nat): nat {
    (size + SECTOR_SIZE - 1) / SECTOR_SIZE
  }

  /** Enough sectors, and not one too many. */
  lemma SectorsSuffice(size: nat)
    ensures size <= 512 * BytesToSectors(size) < size + 512
  {
  }

  /** Sector `k` holds data of inode `s`. */
  predicate InExtent(dev: seq<Sector>, s: nat, k: nat)
    requires s < |dev|
  {
    Start(dev, s) <= k < Start(dev, s) + BytesToSectors(Length(dev, s))
  }

  predicate InodeFits(dev: seq<Sector>, s: nat) {
    s < |dev| && Start(dev, s) + BytesToSectors(Length(dev, s)) <= |dev|
  }

  /** The bytes of inode `s`. */
  function Data(dev: seq<Sector>, s: nat): (r: seq<Byte>)
    requires InodeFits(dev, s)
    ensures |r| == Length(dev, s)
  {
    Flat(dev)[SECTOR_SIZE * Start(dev, s)..SECTOR_SIZE * Start(dev, s) + Length(dev, s)]
  }

  /** `dev'` has the header and data sectors of inode `s` as they are in `dev`. */
  ghost predicate SameInode(dev: seq<Sector>, dev': seq<Sector>, s: nat)
    requires s < |dev| == |dev'|
  {
    dev'[s] == dev[s] && forall k: nat :: InExtent(dev, s, k) && k < |dev| ==> dev'[k] == dev[k]
  }

  lemma SameData(dev: seq<Sector>, dev': seq<Sector>, s: nat)
    requires |dev| == |dev'| && InodeFits(dev, s) && SameInode(dev, dev', s)
    ensures InodeFits(dev', s) && Start(dev', s) == Start(dev, s) && Length(dev', s) == Length(dev, s)
    ensures Data(dev', s) == Data(dev, s)
  {
    var a := SECTOR_SIZE * Start(dev, s);
    forall i | a <= i < a + Length(dev, s) ensures Flat(dev')[i] == Flat(dev)[i] {
      assert InExtent(dev, s, i / SECTOR_SIZE);
    }
  }

  /** A write of `d` at `offset` of inode `s`, as a change of sectors. */
  lemma WriteSectors(dev: seq<Sector>, dev': seq<Sector>, a: nat, d: seq<Byte>, k: nat)
    requires |dev'| == |dev| && a + |d| <= SECTOR_SIZE * |dev| && Flat(dev') == Splice(Flat(dev), a, d)
    requires k < |dev| && (SECTOR_SIZE * k + SECTOR_SIZE <= a || a + |d| <= SECTOR_SIZE * k)
    ensures dev'[k] == dev[k]
  {
    SectorSlice(dev, k);
    SectorSlice(dev', k);
    var b := SECTOR_SIZE * k;
    assert Flat(dev')[b..b + SECTOR_SIZE] == Flat(dev)[b..b + SECTOR_SIZE];
  }

  /** A sector apart from inode `s` is untouched by writes to its data. */
  lemma WriteElsewhere(dev: seq<Sector>, dev': seq<Sector>, s: nat, offset: nat, d: seq<Byte>, k: nat)
    requires |dev'| == |dev| && InodeFits(dev, s) && offset + |d| <= Length(dev, s)
    requires Flat(dev') == Splice(Flat(dev), SECTOR_SIZE * Start(dev, s) + offset, d)
    requires k < |dev| && !InExtent(dev, s, k)
    ensures dev'[k] == dev[k]
  {
    WriteSectors(dev, dev', SECTOR_SIZE * Start(dev, s) + offset, d, k);
  }

  /** Writing an inode's data splices it, and leaves its header. */
  lemma WriteData(dev: seq<Sector>, dev': seq<Sector>, s: nat, offset: nat, d: seq<Byte>)
    requires |dev'| == |dev| && InodeFits(dev, s) && !InExtent(dev, s, s) && offset + |d| <= Length(dev, s)
    requires Flat(dev') == Splice(Flat(dev), SECTOR_SIZE * Start(dev, s) + offset, d)
    ensures dev'[s] == dev[s] && InodeFits(dev', s)
    ensures Data(dev', s) == Splice(Data(dev, s), offset, d)
  {
    WriteElsewhere(dev, dev', s, offset, d, s);
  }

  // ---------- directory entries ----------

  type EntryBytes = e: seq<Byte> | |e| == ENTRY_SIZE witness Zeros(ENTRY_SIZE)

  function EntrySector(e: EntryBytes): nat { FromLe32(e[0..4]) }

  function EntryName(e: EntryBytes): seq<Byte> { CString(e[4..19]) }

  predicate EntryInUse(e: EntryBytes) { e[19] != 0 }

  predicate ValidName(name: seq<Byte>) {
    1 <= |name| <= NAME_MAX && 0 !in name
  }

  /** The entry dir_add writes over the old bytes `e`: strlcpy leaves what follows the null. */
  function FilledEntry(e: EntryBytes, name: seq<Byte>, sector: nat): EntryBytes
    requires |name| <= NAME_MAX
  {
    Le32(sector) + name + [0] + e[4 + |name| + 1..19] + [1]
  }

  lemma FilledEntryReads(e: EntryBytes, name: seq<Byte>, sector: nat)
    requires |name| <= NAME_MAX && 0 !in name && sector < WORD
    ensures var f := FilledEntry(e, name, sector);
            EntrySector(f) == sector && EntryName(f) == name && EntryInUse(f)
  {
    var f := FilledEntry(e, name, sector);
    Le32RoundTrip(sector);
    assert f[0..4] == Le32(sector);
    assert f[4..19] == name + [0] + e[4 + |name| + 1..19];
    CStringPrefix(name, e[4 + |name| + 1..19]);
  }

  /** The entry on disk, as struct dir_entry lays it out: sector, name with its null, in-use byte. */
  lemma EntryBytesAre(e: EntryBytes, name: seq<Byte>, sector: nat)
    requires |name| <= NAME_MAX
    ensures var f := FilledEntry(e, name, sector);
            && |f| == 20 && f[0..4] == Le32(sector) && f[4..4 + |name|] == name && f[4 + |name|] == 0 && f[19] == 1
            && forall i :: 4 + |name| < i < 19 ==> f[i] == e[i]
  {
  }

  // ---------- directories ----------

  function EntryCount(d: seq<Byte>): nat { |d| / ENTRY_SIZE }

  function EntryAt(d: seq<Byte>, i: nat): EntryBytes
    requires i < EntryCount(d)
  {
    d[ENTRY_SIZE * i..ENTRY_SIZE * i + ENTRY_SIZE]
  }

  /** Overwriting one entry leaves the others. */
  lemma SpliceEntry(d: seq<Byte>, i: nat, e: EntryBytes, j: nat)
    requires i < EntryCount(d) && j < EntryCount(d)
    ensures EntryCount(Splice(d, ENTRY_SIZE * i, e)) == EntryCount(d)
    ensures EntryAt(Splice(d, ENTRY_SIZE * i, e), j) == if j == i then e else EntryAt(d, j)
  {
    var d' := Splice(d, ENTRY_SIZE * i, e);
    assert EntryAt(d', j) == if j == i then e else EntryAt(d, j);
  }
}
