/** The root directory's bytes as slots, and the slots as a map from file names to inode sectors. */
module FsDirectory {
  import opened Prelude
  import opened Disk
  import opened FsLayout

  type Name = seq<Byte>
  datatype Slot = Free | Entry(name: Name, sector: nat)

  function SlotOf(e: EntryBytes): Slot {
    if EntryInUse(e) then Entry(EntryName(e), EntrySector(e)) else Free
  }

  /** The directory's slots. */
  function Slots(d: seq<Byte>): (r: seq<Slot>)
    ensures |r| == EntryCount(d)
    ensures forall i :: 0 <= i < |r| ==> r[i] == SlotOf(EntryAt(d, i))
  {
    seq(EntryCount(d), i requires 0 <= i < EntryCount(d) => SlotOf(EntryAt(d, i)))
  }

  ghost predicate Proper(slot: Slot) {
    slot.Entry? ==> ValidName(slot.name) && ROOT_DIR_SECTOR < slot.sector
  }

  /** Entries have proper names and sectors, no two the same. */
  ghost predicate DirOk(sl: seq<Slot>) {
    && (forall i :: 0 <= i < |sl| ==> Proper(sl[i]))
    && (forall i, j :: 0 <= i < j < |sl| && sl[i].Entry? && sl[j].Entry? ==>
          sl[i].name != sl[j].name && sl[i].sector != sl[j].sector)
  }

  ghost function NameMap(sl: seq<Slot>): (m: map<Name, nat>)
    requires DirOk(sl)
    ensures forall i :: 0 <= i < |sl| && sl[i].Entry? ==> sl[i].name in m && m[sl[i].name] == sl[i].sector
    ensures forall n :: n in m ==> exists i :: 0 <= i < |sl| && sl[i].Entry? && sl[i].name == n
  {
    map i | 0 <= i < |sl| && sl[i].Entry? :: sl[i].name := sl[i].sector
  }

  /** First slot from `i` holding `name`. */
  function FindSlot(sl: seq<Slot>, name: Name, i: nat): (r: Option<nat>)
    ensures r.Some? ==> i <= r.value < |sl| && sl[r.value].Entry? && sl[r.value].name == name
    ensures r.None? ==> forall j :: i <= j < |sl| && sl[j].Entry? ==> sl[j].name != name
    decreases |sl| - i
  {
    if i >= |sl| then None
    else if sl[i].Entry? && sl[i].name == name then Some(i)
    else FindSlot(sl, name, i + 1)
  }

  /** First free slot from `i`. */
  function FindFree(sl: seq<Slot>, i: nat): (r: Option<nat>)
    ensures r.Some? ==> i <= r.value < |sl| && sl[r.value].Free?
    ensures r.None? ==> forall j :: i <= j < |sl| ==> sl[j].Entry?
    decreases |sl| - i
  {
    if i >= |sl| then None
    else if sl[i].Free? then Some(i)
    else FindFree(sl, i + 1)
  }

  /** Looking a name up finds its sector, or that there is none. */
  lemma LookupFinds(sl: seq<Slot>, name: Name)
    requires DirOk(sl)
    ensures var r := FindSlot(sl, name, 0);
            && (r.Some? <==> name in NameMap(sl))
            && (r.Some? ==> NameMap(sl)[name] == sl[r.value].sector)
  {
  }

  /** No two names share a sector, and names are valid. */
  lemma NameMapProper(sl: seq<Slot>, n: Name)
    requires DirOk(sl) && n in NameMap(sl)
    ensures ValidName(n) && ROOT_DIR_SECTOR < NameMap(sl)[n]
    ensures forall m :: m in NameMap(sl) && m != n ==> NameMap(sl)[m] != NameMap(sl)[n]
  {
  }

  /** Filling a free slot adds one name. */
  lemma AddKeeps(sl: seq<Slot>, i: nat, name: Name, sector: nat)
    requires DirOk(sl) && i < |sl| && sl[i].Free? && ValidName(name) && ROOT_DIR_SECTOR < sector
    requires name !in NameMap(sl) && forall n :: n in NameMap(sl) ==> NameMap(sl)[n] != sector
    ensures var sl' := sl[i := Entry(name, sector)];
            DirOk(sl') && NameMap(sl') == NameMap(sl)[name := sector]
  {
    hide NameMap, ValidName;
    var sl' := sl[i := Entry(name, sector)];
    assert DirOk(sl');
    var m, m' := NameMap(sl)[name := sector], NameMap(sl');
    forall n | n in m ensures n in m' {
      if n != name {
        var j :| 0 <= j < |sl| && sl[j].Entry? && sl[j].name == n;
        assert sl'[j] == sl[j];
      } else {
        assert sl'[i].name == name;
      }
    }
  }

  /** Freeing a slot removes its name and no other. */
  lemma RemoveKeeps(sl: seq<Slot>, i: nat)
    requires DirOk(sl) && i < |sl| && sl[i].Entry?
    ensures DirOk(sl[i := Free]) && NameMap(sl[i := Free]) == NameMap(sl) - {sl[i].name}
  {
    hide NameMap, ValidName;
    var sl' := sl[i := Free];
    assert DirOk(sl');
    var m, m' := NameMap(sl) - {sl[i].name}, NameMap(sl');
    forall n | n in m ensures n in m' {
      var j :| 0 <= j < |sl| && sl[j].Entry? && sl[j].name == n;
      assert sl'[j] == sl[j];
    }
  }

  // ---------- slots in bytes ----------

  /** Overwriting one entry changes one slot. */
  lemma SlotReplaced(d: seq<Byte>, i: nat, e: EntryBytes)
    requires i < EntryCount(d)
    ensures Slots(Splice(d, ENTRY_SIZE * i, e)) == Slots(d)[i := SlotOf(e)]
  {
    hide SlotOf;
    forall j: nat | j < EntryCount(d)
      ensures EntryAt(Splice(d, ENTRY_SIZE * i, e), j) == if j == i then e else EntryAt(d, j)
    {
      SpliceEntry(d, i, e, j);
    }
  }

  lemma FilledSlot(e: EntryBytes, name: Name, sector: nat)
    requires |name| <= NAME_MAX && 0 !in name && sector < WORD
    ensures SlotOf(FilledEntry(e, name, sector)) == Entry(name, sector)
  {
    FilledEntryReads(e, name, sector);
  }

  lemma EmptyDirectory(n: nat)
    ensures DirOk(Slots(Zeros(n))) && NameMap(Slots(Zeros(n))) == map[]
    ensures forall i :: 0 <= i < n / ENTRY_SIZE ==> Slots(Zeros(n))[i] == Free
  {
  }
}
