/** ELF segments: the entries load_segment makes, and the memory a program header describes. */
module ElfSegment {
  import opened Prelude
  import opened PagingState
  import opened PagingRun
  import opened PagingTheorem

  type Word = w: nat | w < WORD

  /** The fields of a PT_LOAD program header that load uses. */
  datatype Phdr = Phdr(offset: Word, vaddr: Word, filesz: Word, memsz: Word, writable: bool)

  /** validate_segment, with its 32-bit additions. */
  predicate ValidateSegment(ph: Phdr, fileLength: nat) {
    && ph.offset % PGSIZE == ph.vaddr % PGSIZE
    && ph.offset <= fileLength
    && ph.memsz >= ph.filesz
    && ph.memsz != 0
    && ph.vaddr < PHYS_BASE
    && (ph.vaddr + ph.memsz) % WORD < PHYS_BASE
    && (ph.vaddr + ph.memsz) % WORD >= ph.vaddr
    && ph.vaddr >= PGSIZE
  }

  /** What validate_segment lets through, said without wrapping: a nonempty piece of user memory past
      page 0 and below PHYS_BASE, at a place in its page that the file offset shares. */
  lemma ValidMeans(ph: Phdr, fileLength: nat)
    ensures ValidateSegment(ph, fileLength) <==>
      && PGSIZE <= ph.vaddr && ph.vaddr + ph.memsz < PHYS_BASE
      && 0 < ph.memsz && ph.filesz <= ph.memsz && ph.offset <= fileLength
      && (ph.offset - ph.vaddr) % PGSIZE == 0
  {
    assert ph.vaddr + ph.memsz < 2 * WORD;
    SameOffset(ph.offset, ph.vaddr);
  }

  lemma SameOffset(a: nat, b: nat)
    ensures a % PGSIZE == b % PGSIZE <==> (a - b) % PGSIZE == 0
  {
    var q, r := a / PGSIZE - b / PGSIZE, a % PGSIZE - b % PGSIZE;
    assert a - b == PGSIZE * q + r;
  }

  function RoundUp(x: nat): nat {
    (x + PGSIZE - 1) / PGSIZE * PGSIZE
  }

  function ReadBytes(ph: Phdr): nat {
    if ph.filesz > 0 then ph.vaddr % PGSIZE + ph.filesz else 0
  }

  function ZeroBytes(ph: Phdr): int {
    RoundUp(ph.vaddr % PGSIZE + ph.memsz) - ReadBytes(ph)
  }

  function PageCount(ph: Phdr): nat {
    RoundUp(ph.vaddr % PGSIZE + ph.memsz) / PGSIZE
  }

  /** Page `i` of a segment takes the file bytes that are left for it, at most a page. */
  function PageBytes(readBytes: nat, i: nat): nat {
    if readBytes <= i * PGSIZE then 0
    else if readBytes - i * PGSIZE < PGSIZE then readBytes - i * PGSIZE
    else PGSIZE
  }

  function SegmentEntry(file: nat, ofs: nat, upage: nat, readBytes: nat, writable: bool, i: nat): SpInfo {
    FileEntry(file, ofs + i * PGSIZE, PageBytes(readBytes, i), writable, upage + i)
  }

  /** load_segment: the entries it appends, on consecutive pages with no gap or repeat. */
  method LoadSegment(file: nat, ofs: nat, upage: nat, readBytes: nat, zeroBytes: nat, writable: bool)
    returns (spt: seq<SpInfo>)
    requires (readBytes + zeroBytes) % PGSIZE == 0
    ensures |spt| * PGSIZE == readBytes + zeroBytes
    ensures forall i :: 0 <= i < |spt| ==> spt[i] == SegmentEntry(file, ofs, upage, readBytes, writable, i)
  {
    spt := [];
    var read, zero, page, at := readBytes, zeroBytes, upage, ofs;
    while read > 0 || zero > 0
      invariant |spt| * PGSIZE + read + zero == readBytes + zeroBytes
      invariant zero >= 0 && (read + zero) % PGSIZE == 0
      invariant read == if |spt| * PGSIZE < readBytes then readBytes - |spt| * PGSIZE else 0
      invariant page == upage + |spt| && at == ofs + |spt| * PGSIZE
      invariant forall i :: 0 <= i < |spt| ==> spt[i] == SegmentEntry(file, ofs, upage, readBytes, writable, i)
      decreases read + zero
    {
      var pageRead := if read < PGSIZE then read else PGSIZE;
      var pageZero := PGSIZE - pageRead;
      spt := spt + [FileEntry(file, at, pageRead, writable, page)];
      read, zero, page, at := read - pageRead, zero - pageZero, page + 1, at + PGSIZE;
    }
  }

  /** A valid segment meets load_segment's assertions and covers exactly its pages. */
  lemma SegmentCovers(ph: Phdr, fileLength: nat)
    requires ValidateSegment(ph, fileLength)
    ensures ZeroBytes(ph) >= 0 && ReadBytes(ph) + ZeroBytes(ph) == PageCount(ph) * PGSIZE
    ensures ph.vaddr + ph.memsz < PHYS_BASE
    ensures ph.vaddr + ph.memsz <= (ph.vaddr / PGSIZE + PageCount(ph)) * PGSIZE
    ensures (ph.vaddr / PGSIZE + PageCount(ph) - 1) * PGSIZE < ph.vaddr + ph.memsz
  {
    var x := ph.vaddr % PGSIZE + ph.memsz;
    assert ph.vaddr + ph.memsz < 2 * WORD;
    assert x <= RoundUp(x) < x + PGSIZE && RoundUp(x) % PGSIZE == 0;
    assert ReadBytes(ph) + ZeroBytes(ph) == RoundUp(x);
  }

  /** The entry for page `i` of the segment, with the arguments load passes to load_segment. */
  function PageEntry(file: nat, ph: Phdr, i: nat): SpInfo {
    SegmentEntry(file, ph.offset - ph.offset % PGSIZE, ph.vaddr / PGSIZE, ReadBytes(ph), ph.writable, i)
  }

  /** The events by which `p` maps the first `m` pages of the segment. */
  function MapEvents(p: Pid, file: nat, ph: Phdr, m: nat): (r: seq<Event>)
    ensures |r| == m
  {
    if m == 0 then []
    else
      var sp := PageEntry(file, ph, m - 1);
      MapEvents(p, file, ph, m - 1) + [MapFile(p, file, sp.fileOffset, sp.bytesToRead, ph.writable, sp.upage)]
  }

  lemma {:induction false} FlatRunAppend(files: map<nat, seq<Byte>>, flat: Flat, es: seq<Event>, e: Event)
    ensures FlatRun(files, flat, es + [e]).0 == FlatStep(files, FlatRun(files, flat, es).0, e)
    decreases |es|
  {
    if es == [] {
      assert FlatRun(files, FlatStep(files, flat, e), []).0 == FlatStep(files, flat, e);
    } else {
      assert (es + [e])[1..] == es[1..] + [e];
      FlatRunAppend(files, FlatStep(files, flat, es[0]), es[1..], e);
    }
  }

  lemma {:induction false} MappedPages(files: map<nat, seq<Byte>>, flat: Flat, p: Pid, file: nat, ph: Phdr,
                                       m: nat, i: nat)
    requires i < m
    ensures var flat' := FlatRun(files, flat, MapEvents(p, file, ph, m)).0;
            var sp := PageEntry(file, ph, i);
            (p, sp.upage) in flat' && flat'[(p, sp.upage)] == FileImage(files, sp)
  {
    var es := MapEvents(p, file, ph, m);
    assert es == MapEvents(p, file, ph, m - 1) + [es[m - 1]];
    FlatRunAppend(files, flat, MapEvents(p, file, ph, m - 1), es[m - 1]);
    if i < m - 1 {
      MappedPages(files, flat, p, file, ph, m - 1, i);
    }
  }

  /** Byte `a` of the memory a segment describes: the file's bytes, then zeros. */
  function SegmentByte(content: seq<Byte>, ph: Phdr, a: nat): Byte
    requires ph.vaddr <= a && ph.offset + ph.filesz <= |content|
  {
    if a - ph.vaddr < ph.filesz then content[ph.offset + (a - ph.vaddr)] else 0
  }

  /** In flat memory, every address of a valid segment whose file bytes exist holds the file byte or
      the zero the program header prescribes. */
  lemma LazyEqualsEager(files: map<nat, seq<Byte>>, flat: Flat, p: Pid, file: nat, ph: Phdr, a: nat)
    requires file in files && |files[file]| <= INT_MAX && ValidateSegment(ph, |files[file]|)
    requires ph.offset + ph.filesz <= |files[file]|
    requires ph.vaddr <= a < ph.vaddr + ph.memsz
    ensures var flat' := FlatRun(files, flat, MapEvents(p, file, ph, PageCount(ph))).0;
            && (p, a / PGSIZE) in flat'
            && flat'[(p, a / PGSIZE)][a % PGSIZE] == SegmentByte(files[file], ph, a)
  {
    hide FileImage, SegmentByte, FlatRun, MapEvents, ValidateSegment, PageCount;
    SegmentCovers(ph, |files[file]|);
    var m, i := PageCount(ph), a / PGSIZE - ph.vaddr / PGSIZE;
    MappedPages(files, flat, p, file, ph, m, i);
    ImageByte(files, file, ph, a, i);
  }

  lemma ImageByte(files: map<nat, seq<Byte>>, file: nat, ph: Phdr, a: nat, i: nat)
    requires file in files && |files[file]| <= INT_MAX && ValidateSegment(ph, |files[file]|)
    requires ph.offset + ph.filesz <= |files[file]|
    requires ph.vaddr <= a < ph.vaddr + ph.memsz && a / PGSIZE == ph.vaddr / PGSIZE + i
    ensures var sp := PageEntry(file, ph, i);
            FileImage(files, sp)[a % PGSIZE] == SegmentByte(files[file], ph, a)
  {
    hide FileImage;
    var sp := PageEntry(file, ph, i);
    PageArithmetic(ph.offset, ph.vaddr, a, i);
    ImageAt(files, sp, a % PGSIZE);
    assert sp.bytesToRead > 0 ==> sp.fileOffset + sp.bytesToRead <= ph.offset + ph.filesz;
  }

  lemma PageArithmetic(offset: nat, vaddr: nat, a: nat, i: nat)
    requires offset % PGSIZE == vaddr % PGSIZE && vaddr <= a && a / PGSIZE == vaddr / PGSIZE + i
    ensures i * PGSIZE + a % PGSIZE == vaddr % PGSIZE + (a - vaddr)
    ensures offset - offset % PGSIZE + i * PGSIZE + a % PGSIZE == offset + (a - vaddr)
  {
  }

  lemma ImageAt(files: map<nat, seq<Byte>>, sp: SpInfo, d: nat)
    requires d < PGSIZE && (sp.bytesToRead > 0 ==> FileBytesExist(files, sp))
    ensures FileImage(files, sp)[d] == if d < sp.bytesToRead then files[sp.file][sp.fileOffset + d] else 0
  {
  }
}
