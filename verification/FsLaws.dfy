/** What callers can rely on from one call to the next: positions, bytes, names and denied writes. */
module FsLaws {
  import opened Prelude
  import opened Disk
  import opened FsTable
  import opened FsSystem
  import opened FsSpec
  import opened FsRuns

  // ---------- an open file left alone ----------

  /** The call neither uses file `fd` nor writes to inode `ino`; it may deny or allow writes. */
  predicate LeavesAlone(files: map<nat, File>, op: Op, fd: nat, ino: nat) {
    && !Writes(files, op, ino)
    && !((op.Read? || op.Write? || op.Seek? || op.Open? || op.Close?) && op.fd == fd)
  }

  ghost predicate LeftAlone(ops: seq<Op>, views: seq<View>, fd: nat, ino: nat, a: nat, b: nat)
    requires a <= b <= |ops| <= |views|
  {
    forall i :: a <= i < b ==> LeavesAlone(views[i].files, ops[i], fd, ino)
  }

  lemma StepLeavesFile(v: View, op: Op, r: Result, v': View, fd: nat)
    requires Step(v, op, r, v') && fd in v.files && v.files[fd].ino in v.contents
    requires LeavesAlone(v.files, op, fd, v.files[fd].ino)
    ensures fd in v'.files && v'.files[fd].ino == v.files[fd].ino && v'.files[fd].pos == v.files[fd].pos
    ensures v.files[fd].ino in v'.contents && v'.contents[v.files[fd].ino] == v.contents[v.files[fd].ino]
  {
    StepKeepsFile(v, op, r, v', fd);
    StepIsolates(v, op, r, v', v.files[fd].ino);
  }

  /** Between two points of a run in which it is left alone, an open file keeps its position and bytes. */
  lemma {:induction false} FileAlone(ops: seq<Op>, results: seq<Result>, views: seq<View>, fd: nat, a: nat, b: nat)
    requires IsRun(ops, results, views) && a <= b <= |ops|
    requires fd in views[a].files && views[a].files[fd].ino in views[a].contents
    requires LeftAlone(ops, views, fd, views[a].files[fd].ino, a, b)
    ensures fd in views[b].files && views[b].files[fd].ino == views[a].files[fd].ino
    ensures views[b].files[fd].pos == views[a].files[fd].pos && views[a].files[fd].ino in views[b].contents
    ensures FileBytes(views[b], fd) == FileBytes(views[a], fd)
    decreases b - a
  {
    hide Step;
    if a < b {
      FileAlone(ops, results, views, fd, a, b - 1);
      StepLeavesFile(views[b - 1], ops[b - 1], results[b - 1], views[b], fd);
    }
  }

  // ---------- seeking and reading ----------

  /** `bytes` are those of `c` from `pos` on, as many as there are of `n`. */
  predicate BytesAt(c: seq<Byte>, pos: nat, n: int, bytes: seq<Byte>) {
    && |bytes| == Transfer(|c|, n, pos)
    && forall i :: 0 <= i < |bytes| ==> pos + i < |c| && bytes[i] == c[pos + i]
  }

  lemma ReadIs(v: View, op: Op, r: Result, v': View)
    requires Step(v, op, r, v') && op.Read? && op.fd in v.files
    ensures r.Bytes? && BytesAt(FileBytes(v, op.fd), v.files[op.fd].pos, op.count, r.bytes)
    ensures op.fd in v'.files && v'.files[op.fd].pos == v.files[op.fd].pos + |r.bytes|
    ensures v'.files[op.fd].ino == v.files[op.fd].ino && v'.contents == v.contents
  {
  }

  lemma SeekIs(v: View, op: Op, r: Result, v': View)
    requires Step(v, op, r, v') && op.Seek? && op.fd in v.files
    ensures op.fd in v'.files && v'.files[op.fd].pos == op.pos
    ensures v'.files[op.fd].ino == v.files[op.fd].ino && v'.contents == v.contents
  {
  }

  /** After file_seek to p, whatever happens elsewhere, file_read returns the bytes from p on. */
  lemma SeekThenRead(ops: seq<Op>, results: seq<Result>, views: seq<View>, fd: nat, a: nat, b: nat)
    requires IsRun(ops, results, views) && a < b < |ops|
    requires ops[a].Seek? && ops[a].fd == fd && ops[b].Read? && ops[b].fd == fd
    requires fd in views[a].files && views[a].files[fd].ino in views[a].contents
    requires LeftAlone(ops, views, fd, views[a].files[fd].ino, a + 1, b)
    ensures results[b].Bytes?
    ensures BytesAt(FileBytes(views[a], fd), ops[a].pos, ops[b].count, results[b].bytes)
  {
    hide Step, BytesAt;
    SeekIs(views[a], ops[a], results[a], views[a + 1]);
    FileAlone(ops, results, views, fd, a + 1, b);
    ReadIs(views[b], ops[b], results[b], views[b + 1]);
  }

  function AtLeast0(n: int): nat { if n < 0 then 0 else n }

  lemma BytesJoin(c: seq<Byte>, pos: nat, n: int, m: int, x: seq<Byte>, y: seq<Byte>)
    requires BytesAt(c, pos, n, x) && BytesAt(c, pos + |x|, m, y)
    ensures BytesAt(c, pos, AtLeast0(n) + AtLeast0(m), x + y)
  {
  }

  /** Two reads in a row return together what one read of both sizes would have returned. */
  lemma TwoReads(ops: seq<Op>, results: seq<Result>, views: seq<View>, fd: nat, a: nat, b: nat)
    requires IsRun(ops, results, views) && a < b < |ops|
    requires ops[a].Read? && ops[a].fd == fd && ops[b].Read? && ops[b].fd == fd
    requires fd in views[a].files && views[a].files[fd].ino in views[a].contents
    requires LeftAlone(ops, views, fd, views[a].files[fd].ino, a + 1, b)
    ensures results[a].Bytes? && results[b].Bytes?
    ensures BytesAt(FileBytes(views[a], fd), views[a].files[fd].pos,
                    AtLeast0(ops[a].count) + AtLeast0(ops[b].count), results[a].bytes + results[b].bytes)
  {
    hide Step, BytesAt;
    ReadIs(views[a], ops[a], results[a], views[a + 1]);
    FileAlone(ops, results, views, fd, a + 1, b);
    ReadIs(views[b], ops[b], results[b], views[b + 1]);
    BytesJoin(FileBytes(views[a], fd), views[a].files[fd].pos, ops[a].count, ops[b].count,
              results[a].bytes, results[b].bytes);
  }

  // ---------- writing ----------

  /** `c'` is `c` with the first `n` bytes of `data` from `pos` on. */
  predicate Overlaid(c: seq<Byte>, pos: nat, data: seq<Byte>, n: nat, c': seq<Byte>) {
    && |c'| == |c| && n <= |data| && (n > 0 ==> pos + n <= |c|)
    && forall i :: 0 <= i < |c| ==> c'[i] == if pos <= i < pos + n then data[i - pos] else c[i]
  }

  /** file_write takes what fits of the data, puts it at the position and moves past it; while some
      open file denies writes it takes nothing. */
  lemma WriteIs(v: View, op: Op, r: Result, v': View)
    requires Step(v, op, r, v') && op.Write? && op.fd in v.files && v.files[op.fd].ino in v.contents
    ensures r.Count? && op.fd in v'.files && v'.files[op.fd].ino == v.files[op.fd].ino
    ensures r.count == if Denied(v.files, v.files[op.fd].ino) then 0
                       else Transfer(|FileBytes(v, op.fd)|, |op.data|, v.files[op.fd].pos)
    ensures Overlaid(FileBytes(v, op.fd), v.files[op.fd].pos, op.data, r.count, FileBytes(v', op.fd))
    ensures v'.files[op.fd].pos == v.files[op.fd].pos + r.count
    ensures v.files[op.fd].ino in v'.contents
  {
  }

  lemma OverlaidReads(c: seq<Byte>, pos: nat, data: seq<Byte>, n: nat, c': seq<Byte>, bytes: seq<Byte>)
    requires Overlaid(c, pos, data, n, c') && n == Transfer(|c|, |data|, pos) && BytesAt(c', pos, |data|, bytes)
    ensures bytes == data[..n]
  {
  }

  /** A write, a seek back and a read, whatever happens elsewhere: what was taken of the data. */
  lemma WriteSeekRead(ops: seq<Op>, results: seq<Result>, views: seq<View>, fd: nat, a: nat, b: nat, c: nat)
    requires IsRun(ops, results, views) && a < b < c < |ops|
    requires fd in views[a].files && views[a].files[fd].ino in views[a].contents
    requires ops[a].Write? && ops[a].fd == fd && !Denied(views[a].files, views[a].files[fd].ino)
    requires ops[b] == Seek(fd, views[a].files[fd].pos) && ops[c] == Read(fd, |ops[a].data|)
    requires LeftAlone(ops, views, fd, views[a].files[fd].ino, a + 1, b)
    requires LeftAlone(ops, views, fd, views[a].files[fd].ino, b + 1, c)
    ensures results[a] == Count(Transfer(|FileBytes(views[a], fd)|, |ops[a].data|, views[a].files[fd].pos))
    ensures results[a].count <= |ops[a].data| && results[c] == Bytes(ops[a].data[..results[a].count])
  {
    hide Step, BytesAt, Overlaid, Denied;
    var pos, data := views[a].files[fd].pos, ops[a].data;
    WriteIs(views[a], ops[a], results[a], views[a + 1]);
    FileAlone(ops, results, views, fd, a + 1, b);
    SeekThenRead(ops, results, views, fd, b, c);
    OverlaidReads(FileBytes(views[a], fd), pos, data, results[a].count, FileBytes(views[a + 1], fd), results[c].bytes);
  }

  lemma OverlaidTwice(c: seq<Byte>, pos: nat, x: seq<Byte>, n: nat, c1: seq<Byte>, y: seq<Byte>, m: nat, c2: seq<Byte>)
    requires Overlaid(c, pos, x, n, c1) && n == Transfer(|c|, |x|, pos)
    requires Overlaid(c1, pos + n, y, m, c2) && m == Transfer(|c|, |y|, pos + n)
    ensures n + m == Transfer(|c|, |x| + |y|, pos) && Overlaid(c, pos, x + y, n + m, c2)
  {
  }

  /** Two writes in a row leave what one write of both would have left. */
  lemma TwoWrites(ops: seq<Op>, results: seq<Result>, views: seq<View>, fd: nat, a: nat, b: nat)
    requires IsRun(ops, results, views) && a < b < |ops|
    requires fd in views[a].files && views[a].files[fd].ino in views[a].contents
    requires ops[a].Write? && ops[a].fd == fd && !Denied(views[a].files, views[a].files[fd].ino)
    requires ops[b].Write? && ops[b].fd == fd && !Denied(views[b].files, views[a].files[fd].ino)
    requires LeftAlone(ops, views, fd, views[a].files[fd].ino, a + 1, b)
    ensures results[a].Count? && results[b].Count? && fd in views[b + 1].files
    ensures results[a].count + results[b].count ==
            Transfer(|FileBytes(views[a], fd)|, |ops[a].data| + |ops[b].data|, views[a].files[fd].pos)
    ensures Overlaid(FileBytes(views[a], fd), views[a].files[fd].pos, ops[a].data + ops[b].data,
                     results[a].count + results[b].count, FileBytes(views[b + 1], fd))
  {
    hide Step, Overlaid, Denied;
    WriteIs(views[a], ops[a], results[a], views[a + 1]);
    FileAlone(ops, results, views, fd, a + 1, b);
    WriteIs(views[b], ops[b], results[b], views[b + 1]);
    OverlaidLength(FileBytes(views[a], fd), views[a].files[fd].pos, ops[a].data, results[a].count,
                   FileBytes(views[b], fd));
    OverlaidTwice(FileBytes(views[a], fd), views[a].files[fd].pos, ops[a].data, results[a].count,
                  FileBytes(views[b], fd), ops[b].data, results[b].count, FileBytes(views[b + 1], fd));
  }

  lemma OverlaidLength(c: seq<Byte>, pos: nat, data: seq<Byte>, n: nat, c': seq<Byte>)
    requires Overlaid(c, pos, data, n, c')
    ensures |c'| == |c|
  {
  }

  // ---------- names ----------

  /** A new file is `size` zeros under its name; all other names and files are as they were. */
  lemma CreateIs(v: View, op: Op, r: Result, v': View)
    requires Step(v, op, r, v') && op.Create? && r == Ok(true)
    ensures op.name !in v.names && op.name in v'.names && v'.names[op.name] in v'.contents
    ensures var c := v'.contents[v'.names[op.name]]; |c| == op.size && forall i :: 0 <= i < |c| ==> c[i] == 0
    ensures forall n :: n != op.name ==> (n in v'.names <==> n in v.names)
    ensures forall n :: n in v.names ==> v'.names[n] == v.names[n]
    ensures forall s :: s in v.contents ==> s in v'.contents && v'.contents[s] == v.contents[s]
    ensures v'.files == v.files
  {
    assert Enabled(v.files, op);
  }

  /** Opening gives a file at the start of the bytes under the name, exactly when there is such a name. */
  lemma OpenIs(v: View, op: Op, r: Result, v': View)
    requires Step(v, op, r, v') && op.Open? && op.fd !in v.files
    ensures r == Ok(op.name in v.names)
    ensures op.name in v.names ==>
      && op.fd in v'.files && v'.files[op.fd].ino == v.names[op.name] && v'.files[op.fd].pos == 0
      && !v'.files[op.fd].denyWrite
    ensures v'.names == v.names && v'.contents == v.contents
    ensures forall fd :: fd in v.files ==> fd in v'.files && v'.files[fd] == v.files[fd]
  {
  }

  /** Open, then read, whatever happens elsewhere: the first bytes of the file with the name. */
  lemma OpenThenRead(ops: seq<Op>, results: seq<Result>, views: seq<View>, fd: nat, a: nat, b: nat)
    requires IsRun(ops, results, views) && a < b < |ops|
    requires ops[a].Open? && ops[a].fd == fd && fd !in views[a].files && ops[a].name in views[a].names
    requires views[a].names[ops[a].name] in views[a].contents && ops[b].Read? && ops[b].fd == fd
    requires LeftAlone(ops, views, fd, views[a].names[ops[a].name], a + 1, b)
    ensures results[b].Bytes?
    ensures BytesAt(views[a].contents[views[a].names[ops[a].name]], 0, ops[b].count, results[b].bytes)
  {
    hide Step, BytesAt;
    OpenIs(views[a], ops[a], results[a], views[a + 1]);
    FileAlone(ops, results, views, fd, a + 1, b);
    ReadIs(views[b], ops[b], results[b], views[b + 1]);
  }

  /** Removing takes exactly the name away, exactly when it is there; what is open or otherwise named stays. */
  lemma RemoveIs(v: View, op: Op, r: Result, v': View)
    requires Step(v, op, r, v') && op.Remove?
    ensures r == Ok(op.name in v.names) && op.name !in v'.names && v'.files == v.files
    ensures forall n :: n != op.name ==> (n in v'.names <==> n in v.names)
    ensures forall n :: n in v'.names ==> v'.names[n] == v.names[n]
    ensures forall s :: s in v.contents && (s in v'.names.Values || HasFile(v.files, s)) ==>
      s in v'.contents && v'.contents[s] == v.contents[s]
  {
  }

  /** Closing takes exactly the file away. */
  lemma CloseIs(v: View, op: Op, r: Result, v': View)
    requires Step(v, op, r, v') && op.Close? && op.fd in v.files
    ensures op.fd !in v'.files && v'.names == v.names
    ensures forall fd :: fd in v.files && fd != op.fd ==> fd in v'.files && v'.files[fd] == v.files[fd]
    ensures forall fd :: fd in v'.files ==> fd in v.files
    ensures forall s :: s in v.contents && (s in v.names.Values || HasFile(v'.files, s)) ==>
      s in v'.contents && v'.contents[s] == v.contents[s]
  {
  }

  // ---------- denying writes ----------

  /** file_deny_write denies writes to the inode; file_allow_write and file_close lift this file's denial. */
  lemma DenyIs(v: View, op: Op, r: Result, v': View)
    requires Step(v, op, r, v') && (op.Deny? || op.Allow? || op.Close?) && op.fd in v.files
    ensures op.Deny? ==> Denied(v'.files, v.files[op.fd].ino)
    ensures !op.Deny? ==>
      (Denied(v'.files, v.files[op.fd].ino) <==>
       exists fd :: fd in v.files && fd != op.fd && v.files[fd].ino == v.files[op.fd].ino && v.files[fd].denyWrite)
  {
    var ino := v.files[op.fd].ino;
    if op.Deny? {
      DeniedBy(v'.files, op.fd);
    } else if Denied(v'.files, ino) {
      var fd :| fd in v'.files && v'.files[fd].ino == ino && v'.files[fd].denyWrite;
      assert fd != op.fd && v.files[fd] == v'.files[fd];
    } else {
      forall fd | fd in v.files && fd != op.fd && v.files[fd].ino == ino ensures !v.files[fd].denyWrite {
        assert fd in v'.files && v'.files[fd] == v.files[fd];
      }
    }
  }
}
