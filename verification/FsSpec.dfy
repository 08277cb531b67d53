/** The file system as its callers see it: names, contents and open files, with no sectors. */
module FsSpec {
  import opened Prelude
  import opened Disk
  import opened FsLayout
  import opened FsDirectory
  import opened FsTable
  import opened FsSystem
  import opened FsStore

  datatype View = View(names: map<Name, nat>, contents: map<nat, seq<Byte>>, files: map<nat, File>)

  ghost predicate HasFile(files: map<nat, File>, s: nat) {
    exists fd :: fd in files && files[fd].ino == s
  }

  /** A file's bytes are kept while a name or an open file leads to them. */
  ghost function Reap(v: View): View {
    v.(contents := map s | s in v.contents && (s in v.names.Values || HasFile(v.files, s)) :: v.contents[s])
  }

  /** Names and open files lead to contents, and all contents are led to. */
  ghost predicate ViewOk(v: View) {
    && (forall n :: n in v.names ==> ValidName(n) && v.names[n] in v.contents)
    && (forall fd :: fd in v.files ==> v.files[fd].ino in v.contents)
    && (forall m, n :: m in v.names && n in v.names && m != n ==> v.names[m] != v.names[n])
    && (forall s :: s in v.contents ==> s in v.names.Values || HasFile(v.files, s))
  }

  // ---------- the calls ----------

  /** filesys_create succeeded, giving the new file inode `ino`. */
  ghost predicate Created(v: View, name: Name, size: nat, v': View) {
    && ValidName(name) && name !in v.names && name in v'.names
    && var ino := v'.names[name];
       ino !in v.contents && v' == v.(names := v.names[name := ino], contents := v.contents[ino := Zeros(size)])
  }

  function Opened(v: View, name: Name, fd: nat): View
    requires name in v.names
  {
    v.(files := v.files[fd := File(v.names[name], 0, false)])
  }

  ghost function Removed(v: View, name: Name): View {
    Reap(v.(names := v.names - {name}))
  }

  ghost function Closed(v: View, fd: nat): View {
    Reap(v.(files := v.files - {fd}))
  }

  function Moved(v: View, fd: nat, pos: nat): View
    requires fd in v.files
  {
    v.(files := v.files[fd := v.files[fd].(pos := pos)])
  }

  function WithDeny(v: View, fd: nat, deny: bool): View
    requires fd in v.files
  {
    v.(files := v.files[fd := v.files[fd].(denyWrite := deny)])
  }

  /** The bytes of an open file. */
  function FileBytes(v: View, fd: nat): (r: seq<Byte>)
    requires fd in v.files
  {
    if v.files[fd].ino in v.contents then v.contents[v.files[fd].ino] else []
  }

  /** What file_read returns. */
  function ReadBytes(v: View, fd: nat, size: int): (r: seq<Byte>)
    requires fd in v.files
  {
    Slice(FileBytes(v, fd), size, v.files[fd].pos)
  }

  /** What file_write takes of `data`: nothing while some open file denies writes. */
  ghost function WriteBytes(v: View, fd: nat, data: seq<Byte>): seq<Byte>
    requires fd in v.files
  {
    if Denied(v.files, v.files[fd].ino) then [] else Fitting(FileBytes(v, fd), v.files[fd].pos, data)
  }

  ghost function AfterWrite(v: View, fd: nat, data: seq<Byte>): View
    requires fd in v.files
  {
    var f := v.files[fd];
    if Denied(v.files, f.ino) then v
    else Moved(v.(contents := v.contents[f.ino := Written(FileBytes(v, fd), f.pos, data)]), fd,
               f.pos + |WriteBytes(v, fd, data)|)
  }

  // ---------- what is kept ----------

  /** With no call at work, the bytes kept are those of the live inodes. */
  lemma KeptIsLive(y: Sys, contents: map<nat, seq<Byte>>, kept: map<nat, seq<Byte>>)
    requires SysOk(y) && y.refs == multiset{} && y.pending == {}
    requires kept.Keys == y.live - {FREE_MAP_SECTOR, ROOT_DIR_SECTOR}
    requires kept.Keys <= contents.Keys && FREE_MAP_SECTOR !in contents && ROOT_DIR_SECTOR !in contents
    requires forall s :: s in kept ==> kept[s] == contents[s]
    ensures View(NamesOf(y.dir), kept, y.files) == Reap(View(NamesOf(y.dir), contents, y.files))
  {
    hide SysOk, NamesOf;
    SysRoot(y, []);
    forall s | s in contents ensures s in kept <==> s in NamesOf(y.dir).Values || HasFile(y.files, s) {
      QuietLive(y, s);
    }
  }

  /** What callers see of a consistent file system is consistent. */
  lemma LookOk(y: Sys, contents: map<nat, seq<Byte>>)
    requires SysOk(y) && y.refs == multiset{} && y.pending == {}
    requires contents.Keys == y.live - {FREE_MAP_SECTOR, ROOT_DIR_SECTOR}
    ensures RootOk(y.dir) && ViewOk(View(NamesOf(y.dir), contents, y.files))
  {
    hide SysOk, NameMap, DirOk, Slots, ValidName;
    SysRoot(y, []);
    forall n | n in NamesOf(y.dir)
      ensures ValidName(n) && NamesOf(y.dir)[n] in contents
      ensures forall m :: m in NamesOf(y.dir) && m != n ==> NamesOf(y.dir)[m] != NamesOf(y.dir)[n]
    {
      assert NamesOf(y.dir)[n] in Named(y.dir);
      NameMapProper(Slots(y.dir), n);
      QuietLive(y, NamesOf(y.dir)[n]);
    }
    forall fd | fd in y.files ensures y.files[fd].ino in contents {
      FileInoBounds(y, fd);
      QuietLive(y, y.files[fd].ino);
    }
    forall s | s in contents ensures s in NamesOf(y.dir).Values || HasFile(y.files, s) {
      QuietLive(y, s);
    }
  }

  lemma FileInoBounds(y: Sys, fd: nat)
    requires SysOk(y) && fd in y.files
    ensures y.files[fd].ino > ROOT_DIR_SECTOR
  {
    hide Table, CountsOk, NamesOf, Named, RootOk, TableOk, LiveOk;
  }
}
