/** Open inodes, open files, and how their counts agree. */
module FsTable {
  import opened Prelude

  datatype Inode = Inode(sector: nat, openCnt: nat, removed: bool, denyCnt: nat, start: nat, length: nat)
  datatype File = File(ino: nat, pos: nat, denyWrite: bool)

  /** No inode is open twice. */
  ghost predicate Distinct(inodes: seq<Inode>) {
    forall i, j :: 0 <= i < j < |inodes| ==> inodes[i].sector != inodes[j].sector
  }

  /** The open inodes by sector. */
  ghost function Table(inodes: seq<Inode>): (t: map<nat, Inode>)
    requires Distinct(inodes)
    ensures forall i :: 0 <= i < |inodes| ==> inodes[i].sector in t && t[inodes[i].sector] == inodes[i]
    ensures forall s :: s in t ==> exists i :: 0 <= i < |inodes| && inodes[i].sector == s
  {
    map i | 0 <= i < |inodes| :: inodes[i].sector := inodes[i]
  }

  lemma TablePush(inodes: seq<Inode>, x: Inode)
    requires Distinct(inodes) && x.sector !in Table(inodes)
    ensures Distinct([x] + inodes) && Table([x] + inodes) == Table(inodes)[x.sector := x]
  {
    hide Table;
    var w := [x] + inodes;
    assert Distinct(w);
    assert w[0] == x;
    forall s | s in Table(w) ensures s == x.sector || s in Table(inodes) {
      var i :| 0 <= i < |w| && w[i].sector == s;
      if i > 0 { assert inodes[i - 1].sector == s; }
    }
    forall s | s in Table(inodes) ensures s in Table(w) && Table(w)[s] == Table(inodes)[s] {
      var i :| 0 <= i < |inodes| && inodes[i].sector == s;
      assert w[i + 1] == inodes[i];
    }
  }

  lemma TableUpdate(inodes: seq<Inode>, i: nat, x: Inode)
    requires Distinct(inodes) && i < |inodes| && x.sector == inodes[i].sector
    ensures Distinct(inodes[i := x]) && Table(inodes[i := x]) == Table(inodes)[x.sector := x]
  {
    hide Table;
    var w := inodes[i := x];
    forall j | 0 <= j < |w| ensures w[j].sector == inodes[j].sector {
    }
    forall s | s in Table(inodes) ensures s in Table(w) && (s != x.sector ==> Table(w)[s] == Table(inodes)[s]) {
      var j :| 0 <= j < |inodes| && inodes[j].sector == s;
      assert w[j].sector == s;
    }
    assert w[i] == x;
  }

  lemma TableRemove(inodes: seq<Inode>, i: nat)
    requires Distinct(inodes) && i < |inodes|
    ensures var w := inodes[..i] + inodes[i + 1..];
            Distinct(w) && Table(w) == Table(inodes) - {inodes[i].sector}
  {
    DistinctRest(inodes, i);
    hide Table, Distinct;
    var w := inodes[..i] + inodes[i + 1..];
    var t, t' := Table(inodes) - {inodes[i].sector}, Table(w);
    forall s ensures s in t' <==> s in t {
      if s in t' { RestOnly(inodes, i, s); }
      if s in t { RestHas(inodes, i, s); }
    }
    forall s | s in t ensures t'[s] == t[s] {
      RestHas(inodes, i, s);
    }
  }

  lemma RestOnly(inodes: seq<Inode>, i: nat, s: nat)
    requires Distinct(inodes) && i < |inodes| && Distinct(inodes[..i] + inodes[i + 1..])
    requires s in Table(inodes[..i] + inodes[i + 1..])
    ensures s in Table(inodes) && s != inodes[i].sector
  {
    var w := inodes[..i] + inodes[i + 1..];
    var j :| 0 <= j < |w| && w[j].sector == s;
    RestAt(inodes, i, j);
  }

  lemma RestHas(inodes: seq<Inode>, i: nat, s: nat)
    requires Distinct(inodes) && i < |inodes| && Distinct(inodes[..i] + inodes[i + 1..])
    requires s in Table(inodes) && s != inodes[i].sector
    ensures var w := inodes[..i] + inodes[i + 1..];
            s in Table(w) && Table(w)[s] == Table(inodes)[s]
  {
    var w := inodes[..i] + inodes[i + 1..];
    var j :| 0 <= j < |inodes| && inodes[j].sector == s;
    assert w[if j < i then j else j - 1] == inodes[j];
  }

  lemma DistinctRest(inodes: seq<Inode>, i: nat)
    requires Distinct(inodes) && i < |inodes|
    ensures Distinct(inodes[..i] + inodes[i + 1..])
  {
  }

  lemma RestAt(inodes: seq<Inode>, i: nat, j: nat)
    requires Distinct(inodes) && i < |inodes| && j < |inodes| - 1
    ensures var w := inodes[..i] + inodes[i + 1..];
            var k := if j < i then j else j + 1;
            w[j] == inodes[k] && inodes[k].sector != inodes[i].sector
  {
  }

  // ---------- counts ----------

  ghost function OpenersOf(files: map<nat, File>, s: nat): (r: set<nat>)
    ensures r <= files.Keys
  {
    set fd | fd in files && files[fd].ino == s
  }

  ghost function DeniersOf(files: map<nat, File>, s: nat): (r: set<nat>)
    ensures r <= OpenersOf(files, s)
  {
    set fd | fd in files && files[fd].ino == s && files[fd].denyWrite
  }

  /** Inode `s` is open as often as files and other references are on it, and denied as often as files deny. */
  ghost predicate Counted(table: map<nat, Inode>, files: map<nat, File>, refs: multiset<nat>, s: nat) {
    && (s in table <==> |OpenersOf(files, s)| + refs[s] > 0)
    && (s in table ==>
          && table[s].openCnt == |OpenersOf(files, s)| + refs[s]
          && table[s].denyCnt == |DeniersOf(files, s)|)
  }

  ghost predicate CountsOk(table: map<nat, Inode>, files: map<nat, File>, refs: multiset<nat>) {
    forall s: nat :: Counted(table, files, refs, s)
  }

  /** inode_open of an inode that is not open yet. */
  lemma OpenFirst(table: map<nat, Inode>, files: map<nat, File>, refs: multiset<nat>, x: Inode)
    requires CountsOk(table, files, refs) && x.sector !in table && x.openCnt == 1 && x.denyCnt == 0
    ensures CountsOk(table[x.sector := x], files, refs + multiset{x.sector})
  {
    var table', refs' := table[x.sector := x], refs + multiset{x.sector};
    forall s: nat ensures Counted(table', files, refs', s) {
      assert Counted(table, files, refs, s);
      if s == x.sector { assert OpenersOf(files, s) == {} && DeniersOf(files, s) == {}; }
    }
  }

  /** inode_reopen. */
  lemma OpenAgain(table: map<nat, Inode>, files: map<nat, File>, refs: multiset<nat>, s: nat)
    requires CountsOk(table, files, refs) && s in table
    ensures CountsOk(table[s := table[s].(openCnt := table[s].openCnt + 1)], files, refs + multiset{s})
  {
    var table', refs' := table[s := table[s].(openCnt := table[s].openCnt + 1)], refs + multiset{s};
    forall t: nat ensures Counted(table', files, refs', t) {
      assert Counted(table, files, refs, t);
    }
  }

  /** inode_close by one of several openers. */
  lemma CloseOne(table: map<nat, Inode>, files: map<nat, File>, refs: multiset<nat>, s: nat)
    requires CountsOk(table, files, refs) && refs[s] > 0 && s in table && table[s].openCnt > 1
    ensures CountsOk(table[s := table[s].(openCnt := table[s].openCnt - 1)], files, refs - multiset{s})
  {
    var table', refs' := table[s := table[s].(openCnt := table[s].openCnt - 1)], refs - multiset{s};
    forall t: nat ensures Counted(table', files, refs', t) {
      assert Counted(table, files, refs, t);
    }
  }

  /** inode_close by the last opener. */
  lemma CloseLast(table: map<nat, Inode>, files: map<nat, File>, refs: multiset<nat>, s: nat)
    requires CountsOk(table, files, refs) && refs[s] > 0 && s in table && table[s].openCnt == 1
    ensures CountsOk(table - {s}, files, refs - multiset{s})
  {
    forall t: nat ensures Counted(table - {s}, files, refs - multiset{s}, t) {
      assert Counted(table, files, refs, t);
    }
  }

  /** file_open takes over a reference. */
  lemma FileOpened(table: map<nat, Inode>, files: map<nat, File>, refs: multiset<nat>, fd: nat, f: File)
    requires CountsOk(table, files, refs) && fd !in files && refs[f.ino] > 0 && !f.denyWrite
    ensures CountsOk(table, files[fd := f], refs - multiset{f.ino})
  {
    hide OpenersOf, DeniersOf;
    var files', refs' := files[fd := f], refs - multiset{f.ino};
    forall t: nat ensures Counted(table, files', refs', t) {
      assert Counted(table, files, refs, t);
      OpenersAdd(files, fd, f, t);
    }
  }

  lemma OpenersAdd(files: map<nat, File>, fd: nat, f: File, t: nat)
    requires fd !in files && !f.denyWrite
    ensures DeniersOf(files[fd := f], t) == DeniersOf(files, t) && fd !in OpenersOf(files, t)
    ensures OpenersOf(files[fd := f], t) == if t == f.ino then OpenersOf(files, t) + {fd} else OpenersOf(files, t)
  {
  }

  /** file_close gives its reference back. */
  lemma FileClosed(table: map<nat, Inode>, files: map<nat, File>, refs: multiset<nat>, fd: nat)
    requires CountsOk(table, files, refs) && fd in files && !files[fd].denyWrite
    ensures CountsOk(table, files - {fd}, refs + multiset{files[fd].ino})
  {
    forall t: nat ensures Counted(table, files - {fd}, refs + multiset{files[fd].ino}, t) {
      assert Counted(table, files, refs, t);
      assert DeniersOf(files - {fd}, t) == DeniersOf(files, t);
      assert OpenersOf(files, t) ==
        if t == files[fd].ino then OpenersOf(files - {fd}, t) + {fd} else OpenersOf(files - {fd}, t);
    }
  }

  /** Only the file's position changes. */
  lemma FileMoved(table: map<nat, Inode>, files: map<nat, File>, refs: multiset<nat>, fd: nat, pos: nat)
    requires CountsOk(table, files, refs) && fd in files
    ensures CountsOk(table, files[fd := files[fd].(pos := pos)], refs)
  {
    var files' := files[fd := files[fd].(pos := pos)];
    forall t: nat ensures Counted(table, files', refs, t) {
      assert Counted(table, files, refs, t);
      assert OpenersOf(files', t) == OpenersOf(files, t) && DeniersOf(files', t) == DeniersOf(files, t);
    }
  }

  /** file_deny_write and file_allow_write. */
  lemma FileDenied(table: map<nat, Inode>, files: map<nat, File>, refs: multiset<nat>, fd: nat, deny: bool)
    requires CountsOk(table, files, refs) && fd in files && files[fd].denyWrite != deny
    ensures var s := files[fd].ino;
            && s in table && (!deny ==> table[s].denyCnt > 0)
            && (deny ==> table[s].denyCnt < table[s].openCnt)
            && CountsOk(table[s := table[s].(denyCnt := table[s].denyCnt + if deny then 1 else -1)],
                        files[fd := files[fd].(denyWrite := deny)], refs)
  {
    var s := files[fd].ino;
    var files' := files[fd := files[fd].(denyWrite := deny)];
    assert Counted(table, files, refs, s);
    assert fd in OpenersOf(files, s);
    if deny {
      assert DeniersOf(files', s) == DeniersOf(files, s) + {fd};
      SubsetSize(DeniersOf(files', s), OpenersOf(files', s));
      assert OpenersOf(files', s) == OpenersOf(files, s);
    } else {
      assert DeniersOf(files, s) == DeniersOf(files', s) + {fd};
    }
    var table' := table[s := table[s].(denyCnt := table[s].denyCnt + if deny then 1 else -1)];
    forall t: nat ensures Counted(table', files', refs, t) {
      assert Counted(table, files, refs, t);
      assert OpenersOf(files', t) == OpenersOf(files, t);
      if t != s { assert DeniersOf(files', t) == DeniersOf(files, t); }
    }
  }

  /** Writes are denied exactly when some open file denies them. */
  lemma DeniedIff(table: map<nat, Inode>, files: map<nat, File>, refs: multiset<nat>, s: nat)
    requires CountsOk(table, files, refs) && s in table
    ensures table[s].denyCnt > 0 <==> exists fd :: fd in files && files[fd].ino == s && files[fd].denyWrite
  {
    assert Counted(table, files, refs, s);
    if table[s].denyCnt == 0 {
      assert DeniersOf(files, s) == {};
    } else {
      var fd :| fd in DeniersOf(files, s);
    }
    if fd :| fd in files && files[fd].ino == s && files[fd].denyWrite {
      assert fd in DeniersOf(files, s);
    }
  }

  /** An inode is open exactly when a file or another reference is on it. */
  lemma OpenIff(table: map<nat, Inode>, files: map<nat, File>, refs: multiset<nat>, s: nat)
    requires CountsOk(table, files, refs)
    ensures s in table <==> s in refs || exists fd :: fd in files && files[fd].ino == s
  {
    assert Counted(table, files, refs, s);
    if |OpenersOf(files, s)| > 0 {
      var fd :| fd in OpenersOf(files, s);
    }
    if fd :| fd in files && files[fd].ino == s {
      assert fd in OpenersOf(files, s);
    }
  }
}
