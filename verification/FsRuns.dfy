/** Whole runs of the file system, against the specification of its calls. */
module FsRuns {
  import opened Prelude
  import opened FsLayout
  import opened FsDirectory
  import opened FsTable
  import opened FsSystem
  import opened FsStore
  import opened FsSpec
  import opened FileSys

  datatype Op =
    | Create(name: Name, size: nat)
    | Open(name: Name, fd: nat)
    | Remove(name: Name)
    | Read(fd: nat, count: int)
    | Write(fd: nat, data: seq<Byte>)
    | Seek(fd: nat, pos: nat)
    | Deny(fd: nat)
    | Allow(fd: nat)
    | Close(fd: nat)

  datatype Result = Ok(ok: bool) | Bytes(bytes: seq<Byte>) | Count(count: nat) | Done | Bad

  /** The call may be made: names are C strings, sizes fit, files are open and new ones are new. */
  predicate Enabled(files: map<nat, File>, op: Op) {
    match op
    case Create(name, size) => 0 !in name && size <= OFF_MAX
    case Open(_, fd) => fd !in files
    case Remove(_) => true
    case _ => op.fd in files
  }

  /** What one call may return, and what callers see after it. */
  ghost predicate Step(v: View, op: Op, r: Result, v': View) {
    if !Enabled(v.files, op) then r == Bad && v' == v
    else match op
      case Create(name, size) => r.Ok? && if r.ok then Created(v, name, size, v') else v' == v
      case Open(name, fd) => r == Ok(name in v.names) && v' == if name in v.names then Opened(v, name, fd) else v
      case Remove(name) => r == Ok(name in v.names) && v' == if name in v.names then Removed(v, name) else v
      case Read(fd, count) =>
        r == Bytes(ReadBytes(v, fd, count)) && v' == Moved(v, fd, v.files[fd].pos + |ReadBytes(v, fd, count)|)
      case Write(fd, data) => r == Count(|WriteBytes(v, fd, data)|) && v' == AfterWrite(v, fd, data)
      case Seek(fd, pos) => r == Done && v' == Moved(v, fd, pos)
      case Deny(fd) => r == Done && v' == WithDeny(v, fd, true)
      case Allow(fd) => r == Done && v' == WithDeny(v, fd, false)
      case Close(fd) => r == Done && v' == Closed(v, fd)
  }

  /** The only call that can leave sectors marked used that no file owns: a create that fails. */
  predicate Leaky(op: Op, r: Result) { op.Create? && r == Ok(false) }

  /** One call on the real thing is a step of the specification. */
  method Do(fs: FileSystem, op: Op) returns (r: Result)
    requires fs.Quiet()
    modifies fs, fs.store`dev, fs.store`freeMap, fs.store`live, fs.store`extra
    ensures fs.Quiet() && Step(old(fs.Look()), op, r, fs.Look())
    ensures Leaky(op, r) || fs.store.extra == old(fs.store.extra)
  {
    hide FileSystem.Valid, FileSystem.Names, FileSystem.Contents;
    hide Created, Opened, Removed, ReadBytes, Moved, WriteBytes, AfterWrite, WithDeny, Closed;
    hide ValidName, FindFree, RoomFor;
    if !Enabled(fs.files, op) {
      return Bad;
    }
    match op
    case Create(name, size) =>
      var ok := fs.Create(name, size);
      r := Ok(ok);
    case Open(name, fd) =>
      var ok := fs.Open(name, fd);
      r := Ok(ok);
    case Remove(name) =>
      var ok := fs.Remove(name);
      r := Ok(ok);
    case Read(fd, count) =>
      var b := fs.Read(fd, count);
      r := Bytes(b);
    case Write(fd, data) =>
      var n := fs.Write(fd, data);
      r := Count(n);
    case Seek(fd, pos) =>
      fs.MoveTo(fd, pos);
      r := Done;
    case Deny(fd) =>
      fs.SetDeny(fd, true);
      r := Done;
    case Allow(fd) =>
      fs.SetDeny(fd, false);
      r := Done;
    case Close(fd) =>
      fs.Close(fd);
      r := Done;
  }

  /** Views seen along a run, each step as specified. */
  ghost predicate IsRun(ops: seq<Op>, results: seq<Result>, views: seq<View>) {
    && |results| == |ops| && |views| == |ops| + 1
    && forall i :: 0 <= i < |ops| ==> Step(views[i], ops[i], results[i], views[i + 1])
  }

  /** Any sequence of calls behaves as a run of the specification. */
  method Run(fs: FileSystem, ops: seq<Op>) returns (results: seq<Result>, ghost views: seq<View>)
    requires fs.Quiet()
    modifies fs, fs.store`dev, fs.store`freeMap, fs.store`live, fs.store`extra
    ensures fs.Quiet() && IsRun(ops, results, views) && views[0] == old(fs.Look()) && views[|ops|] == fs.Look()
    ensures (exists i :: 0 <= i < |ops| && Leaky(ops[i], results[i])) || fs.store.extra == old(fs.store.extra)
  {
    hide FileSystem.Valid, Step, FileSystem.Look, Leaky;
    results, views := [], [fs.Look()];
    for k := 0 to |ops|
      invariant fs.Quiet() && |results| == k && |views| == k + 1 && views[0] == old(fs.Look()) && views[k] == fs.Look()
      invariant forall i :: 0 <= i < k ==> Step(views[i], ops[i], results[i], views[i + 1])
      invariant (exists i :: 0 <= i < k && Leaky(ops[i], results[i])) || fs.store.extra == old(fs.store.extra)
    {
      var r := Do(fs, ops[k]);
      results, views := results + [r], views + [fs.Look()];
    }
  }

  // ---------- what runs keep ----------

  /** The call writes to inode `ino`. */
  predicate Writes(files: map<nat, File>, op: Op, ino: nat) {
    op.Write? && op.fd in files && files[op.fd].ino == ino
  }

  /** One call that does not write an inode leaves its bytes, if it leaves the inode. */
  lemma StepIsolates(v: View, op: Op, r: Result, v': View, ino: nat)
    requires Step(v, op, r, v') && ino in v.contents && !Writes(v.files, op, ino)
    ensures ino in v'.contents ==> v'.contents[ino] == v.contents[ino]
  {
  }

  /** Over any run, a file nobody writes keeps its bytes for as long as it exists. */
  lemma {:induction false} Isolation(ops: seq<Op>, results: seq<Result>, views: seq<View>, ino: nat, k: nat)
    requires IsRun(ops, results, views) && k <= |ops|
    requires forall i :: 0 <= i <= k ==> ino in views[i].contents
    requires forall i :: 0 <= i < k ==> !Writes(views[i].files, ops[i], ino)
    ensures views[k].contents[ino] == views[0].contents[ino]
  {
    hide Step;
    if k > 0 {
      Isolation(ops, results, views, ino, k - 1);
      StepIsolates(views[k - 1], ops[k - 1], results[k - 1], views[k], ino);
    }
  }

  /** The call opens or closes file `fd`. */
  predicate Touches(op: Op, fd: nat) {
    (op.Close? || op.Open?) && op.fd == fd
  }

  lemma StepKeepsFile(v: View, op: Op, r: Result, v': View, fd: nat)
    requires Step(v, op, r, v') && fd in v.files && !Touches(op, fd) && v.files[fd].ino in v.contents
    ensures fd in v'.files && v'.files[fd].ino == v.files[fd].ino && v.files[fd].ino in v'.contents
  {
    if Enabled(v.files, op) && (op.Remove? || op.Close?) {
      var f := if op.Close? then v.files - {op.fd} else v.files;
      assert fd in f && f[fd].ino == v.files[fd].ino;
      assert HasFile(f, v.files[fd].ino);
    }
  }

  /** An open file outlives its name: whatever is removed or created, its inode stays until the file is closed. */
  lemma {:induction false} OpenFileStays(ops: seq<Op>, results: seq<Result>, views: seq<View>, fd: nat, k: nat)
    requires IsRun(ops, results, views) && k <= |ops|
    requires fd in views[0].files && views[0].files[fd].ino in views[0].contents
    requires forall i :: 0 <= i < k ==> !Touches(ops[i], fd)
    ensures fd in views[k].files && views[k].files[fd].ino == views[0].files[fd].ino
    ensures views[0].files[fd].ino in views[k].contents
  {
    hide Step;
    if k > 0 {
      OpenFileStays(ops, results, views, fd, k - 1);
      StepKeepsFile(views[k - 1], ops[k - 1], results[k - 1], views[k], fd);
    }
  }

  /** Over any run, what a file held when last written is what it reads, even after its name is removed. */
  lemma ReadsLastWritten(ops: seq<Op>, results: seq<Result>, views: seq<View>, fd: nat, k: nat)
    requires IsRun(ops, results, views) && k <= |ops|
    requires fd in views[0].files && views[0].files[fd].ino in views[0].contents
    requires forall i :: 0 <= i < k ==> !Touches(ops[i], fd)
    requires forall i :: 0 <= i < k ==> !Writes(views[i].files, ops[i], views[0].files[fd].ino)
    ensures fd in views[k].files && FileBytes(views[k], fd) == FileBytes(views[0], fd)
  {
    hide Step;
    var ino := views[0].files[fd].ino;
    forall i | 0 <= i <= k ensures ino in views[i].contents {
      OpenFileStays(ops, results, views, fd, i);
    }
    Isolation(ops, results, views, ino, k);
    OpenFileStays(ops, results, views, fd, k);
  }

  // ---------- denying writes ----------

  /** The call ends `fd`'s denial of writes. */
  predicate Relents(op: Op, fd: nat) {
    Touches(op, fd) || op == Allow(fd)
  }

  lemma DeniedBy(files: map<nat, File>, fd: nat)
    requires fd in files && files[fd].denyWrite
    ensures Denied(files, files[fd].ino)
  {
  }

  lemma StepKeepsDenied(v: View, op: Op, r: Result, v': View, fd: nat)
    requires Step(v, op, r, v') && fd in v.files && v.files[fd].denyWrite && v.files[fd].ino in v.contents
    requires !Relents(op, fd)
    ensures fd in v'.files && v'.files[fd].denyWrite && v'.files[fd].ino == v.files[fd].ino
    ensures v.files[fd].ino in v'.contents && v'.contents[v.files[fd].ino] == v.contents[v.files[fd].ino]
  {
    StepKeepsFile(v, op, r, v', fd);
    DeniedBy(v.files, fd);
    if Writes(v.files, op, v.files[fd].ino) {
      assert v' == v;
    } else {
      StepIsolates(v, op, r, v', v.files[fd].ino);
    }
  }

  /** While an open file denies writes, its inode's bytes do not change, whoever writes: what an
      executable is mapped from stays what it was for as long as its process runs. */
  lemma {:induction false} DeniedFileStays(ops: seq<Op>, results: seq<Result>, views: seq<View>, fd: nat, k: nat)
    requires IsRun(ops, results, views) && k <= |ops|
    requires fd in views[0].files && views[0].files[fd].denyWrite && views[0].files[fd].ino in views[0].contents
    requires forall i :: 0 <= i < k ==> !Relents(ops[i], fd)
    ensures fd in views[k].files && views[k].files[fd].denyWrite && views[k].files[fd].ino == views[0].files[fd].ino
    ensures views[0].files[fd].ino in views[k].contents
    ensures views[k].contents[views[0].files[fd].ino] == views[0].contents[views[0].files[fd].ino]
  {
    hide Step;
    if k > 0 {
      DeniedFileStays(ops, results, views, fd, k - 1);
      StepKeepsDenied(views[k - 1], ops[k - 1], results[k - 1], views[k], fd);
    }
  }
}
