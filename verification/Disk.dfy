/** A block device, seen as sectors and as one string of bytes. */
module Disk {
  import opened Prelude

  function Zeros(n: nat): (s: seq<Byte>)
    ensures |s| == n && forall i :: 0 <= i < n ==> s[i] == 0
  {
    Fill(n, 0)
  }

  const ZERO_SECTOR: Sector := Zeros(SECTOR_SIZE)

  /** All the bytes of the device. */
  function Flat(dev: seq<Sector>): (r: seq<Byte>)
    ensures |r| == SECTOR_SIZE * |dev|
    ensures forall i :: 0 <= i < |r| ==> r[i] == dev[i / SECTOR_SIZE][i % SECTOR_SIZE]
  {
    seq(SECTOR_SIZE * |dev|, i requires 0 <= i < SECTOR_SIZE * |dev| => dev[i / SECTOR_SIZE][i % SECTOR_SIZE])
  }

  /** `d` written over `s` from position `a`. */
  function Splice<T>(s: seq<T>, a: nat, d: seq<T>): (r: seq<T>)
    requires a + |d| <= |s|
    ensures |r| == |s|
    ensures forall i :: 0 <= i < |s| ==> r[i] == if a <= i < a + |d| then d[i - a] else s[i]
  {
    s[..a] + d + s[a + |d|..]
  }

  lemma SpliceTwice<T>(s: seq<T>, a: nat, d: seq<T>, e: seq<T>)
    requires a + |d| + |e| <= |s|
    ensures Splice(Splice(s, a, d), a + |d|, e) == Splice(s, a, d + e)
  {
  }

  lemma SectorSlice(dev: seq<Sector>, k: nat)
    requires k < |dev|
    ensures Flat(dev)[SECTOR_SIZE * k..SECTOR_SIZE * k + SECTOR_SIZE] == dev[k]
  {
    forall r | 0 <= r < SECTOR_SIZE ensures Flat(dev)[SECTOR_SIZE * k + r] == dev[k][r] {
      DivMod(k, r);
    }
  }

  lemma SliceOfSlice<T>(s: seq<T>, a: nat, n: nat, b: nat, m: nat)
    requires a + n <= |s| && b + m <= n
    ensures s[a..a + n][b..b + m] == s[a + b..a + b + m]
  {
    var p, q := s[a..a + n][b..b + m], s[a + b..a + b + m];
    forall i | 0 <= i < m ensures p[i] == q[i] {
      assert s[a..a + n][b + i] == s[a + b + i];
    }
  }

  lemma DivMod(k: nat, r: nat)
    requires r < SECTOR_SIZE
    ensures (SECTOR_SIZE * k + r) / SECTOR_SIZE == k && (SECTOR_SIZE * k + r) % SECTOR_SIZE == r
  {
  }

  /** Writing part of a sector writes those bytes of the device and no others. */
  lemma WritePart(dev: seq<Sector>, k: nat, ofs: nat, d: seq<Byte>)
    requires k < |dev| && ofs + |d| <= SECTOR_SIZE
    ensures Flat(dev[k := Splice(dev[k], ofs, d)]) == Splice(Flat(dev), SECTOR_SIZE * k + ofs, d)
  {
    var a, b := Flat(dev[k := Splice(dev[k], ofs, d)]), Splice(Flat(dev), SECTOR_SIZE * k + ofs, d);
    forall i | 0 <= i < |a| ensures a[i] == b[i] {
      if i / SECTOR_SIZE == k {
        assert i == SECTOR_SIZE * k + i % SECTOR_SIZE;
      }
    }
  }

  // ---------- the chunked transfer loops ----------

  /** How many bytes a transfer of `size` at `offset` moves in a file of `length` bytes. */
  function Transfer(length: nat, size: int, offset: nat): nat {
    if size <= 0 || length <= offset then 0
    else if size < length - offset then size else length - offset
  }

  /** The extent of `length` bytes from sector `start` lies on the device. */
  predicate OnDevice(dev: seq<Sector>, start: nat, length: nat) {
    SECTOR_SIZE * start + length <= SECTOR_SIZE * |dev|
  }

  /** Byte `at` of an extent: in which of its sectors, and where in that. */
  function SectorNo(at: nat): nat { at / SECTOR_SIZE }

  function SectorOfs(at: nat): nat { at % SECTOR_SIZE }

  lemma SectorAddress(dev: seq<Sector>, start: nat, length: nat, at: nat)
    requires OnDevice(dev, start, length) && at < length
    ensures SECTOR_SIZE * (start + SectorNo(at)) + SectorOfs(at) == SECTOR_SIZE * start + at
    ensures start + SectorNo(at) < |dev|
  {
  }

  /** Bytes to move next: what is asked for, left in the file, and left in the sector. */
  function Chunk(length: nat, left: int, at: nat): (c: int)
    ensures c <= left && at + c <= length && SectorOfs(at) + c <= SECTOR_SIZE
    ensures c <= 0 <==> left <= 0 || length <= at
  {
    var inodeLeft, sectorLeft := length - at, SECTOR_SIZE - SectorOfs(at);
    var minLeft := if inodeLeft < sectorLeft then inodeLeft else sectorLeft;
    if left < minLeft then left else minLeft
  }

  method ReadChunk(dev: seq<Sector>, sector: nat, ofs: nat, chunk: nat) returns (piece: seq<Byte>)
    requires sector < |dev| && ofs + chunk <= SECTOR_SIZE
    ensures piece == Flat(dev)[SECTOR_SIZE * sector + ofs..SECTOR_SIZE * sector + ofs + chunk]
  {
    hide Flat;
    SectorSlice(dev, sector);
    SliceOfSlice(Flat(dev), SECTOR_SIZE * sector, SECTOR_SIZE, ofs, chunk);
    if ofs == 0 && chunk == SECTOR_SIZE {
      piece := dev[sector];
    } else {
      var bounce := dev[sector];
      piece := bounce[ofs..ofs + chunk];
    }
  }

  method WriteChunk(dev: seq<Sector>, sector: nat, ofs: nat, piece: seq<Byte>) returns (dev': seq<Sector>)
    requires sector < |dev| && ofs + |piece| <= SECTOR_SIZE
    ensures |dev'| == |dev| && Flat(dev') == Splice(Flat(dev), SECTOR_SIZE * sector + ofs, piece)
  {
    WritePart(dev, sector, ofs, piece);
    if ofs == 0 && |piece| == SECTOR_SIZE {
      assert Splice(dev[sector], 0, piece) == piece;
      dev' := dev[sector := piece];
    } else {
      var bounce := if ofs > 0 || |piece| < SECTOR_SIZE - ofs then dev[sector] else ZERO_SECTOR;
      dev' := dev[sector := Splice(bounce, ofs, piece)];
    }
  }

  /** inode_read_at: sector by sector, directly or through a bounce buffer. */
  method InodeReadAt(dev: seq<Sector>, start: nat, length: nat, size: int, offset: nat) returns (buffer: seq<Byte>)
    requires OnDevice(dev, start, length)
    ensures |buffer| == Transfer(length, size, offset)
    ensures |buffer| > 0 ==>
      buffer == Flat(dev)[SECTOR_SIZE * start + offset..SECTOR_SIZE * start + offset + |buffer|]
  {
    hide Flat, Chunk, SectorNo, SectorOfs;
    buffer := [];
    var left, at := size, offset;
    while left > 0
      invariant at == offset + |buffer| && left == size - |buffer|
      invariant |buffer| <= Transfer(length, size, offset)
      invariant |buffer| > 0 ==>
        buffer == Flat(dev)[SECTOR_SIZE * start + offset..SECTOR_SIZE * start + offset + |buffer|]
      decreases left
    {
      var chunk := Chunk(length, left, at);
      if chunk <= 0 {
        break;
      }
      SectorAddress(dev, start, length, at);
      var piece := ReadChunk(dev, start + SectorNo(at), SectorOfs(at), chunk);
      buffer := buffer + piece;
      left, at := left - chunk, at + chunk;
    }
  }

  /** inode_write_at: the bytes transferred replace those bytes of the device and no others. */
  method InodeWriteAt(dev: seq<Sector>, start: nat, length: nat, denied: bool, data: seq<Byte>, offset: nat)
    returns (dev': seq<Sector>, written: nat)
    requires OnDevice(dev, start, length)
    ensures written == if denied then 0 else Transfer(length, |data|, offset)
    ensures |dev'| == |dev| && (written == 0 ==> dev' == dev)
    ensures written > 0 ==> Flat(dev') == Splice(Flat(dev), SECTOR_SIZE * start + offset, data[..written])
  {
    hide Splice, Flat, Chunk, SectorNo, SectorOfs, Overwritten;
    dev', written := dev, 0;
    NotOverwritten(Flat(dev), SECTOR_SIZE * start + offset, data);
    if denied {
      return;
    }
    ghost var a := SECTOR_SIZE * start + offset;
    var left, at := |data|, offset;
    while left > 0
      invariant at == offset + written && left == |data| - written
      invariant written <= Transfer(length, |data|, offset) && |dev'| == |dev| && (written == 0 ==> dev' == dev)
      invariant Flat(dev') == Overwritten(Flat(dev), a, data[..written])
      decreases left
    {
      var chunk := Chunk(length, left, at);
      if chunk <= 0 {
        break;
      }
      SectorAddress(dev, start, length, at);
      ExtendOverwritten(Flat(dev), a, data, written, chunk);
      dev' := WriteChunk(dev', start + SectorNo(at), SectorOfs(at), data[written..written + chunk]);
      left, at, written := left - chunk, at + chunk, written + chunk;
    }
    if written > 0 {
      IsOverwritten(Flat(dev), a, data[..written]);
    }
  }

  /** `d` over `s` from `a`, wherever `a` is if there is nothing to write. */
  function Overwritten(s: seq<Byte>, a: nat, d: seq<Byte>): (r: seq<Byte>)
    requires d == [] || a + |d| <= |s|
    ensures |r| == |s|
  {
    if d == [] then s else Splice(s, a, d)
  }

  lemma NotOverwritten(s: seq<Byte>, a: nat, data: seq<Byte>)
    ensures Overwritten(s, a, data[..0]) == s
  {
  }

  lemma IsOverwritten(s: seq<Byte>, a: nat, d: seq<Byte>)
    requires d != [] && a + |d| <= |s|
    ensures Overwritten(s, a, d) == Splice(s, a, d)
  {
  }

  lemma ExtendOverwritten(s: seq<Byte>, a: nat, data: seq<Byte>, written: nat, chunk: nat)
    requires chunk > 0 && written + chunk <= |data| && a + written + chunk <= |s|
    ensures Splice(Overwritten(s, a, data[..written]), a + written, data[written..written + chunk])
         == Overwritten(s, a, data[..written + chunk])
  {
    assert data[..written] + data[written..written + chunk] == data[..written + chunk];
    SpliceTwice(s, a, data[..written], data[written..written + chunk]);
    if written == 0 { assert Splice(s, a, data[..0]) == s; }
  }

  /** inode_write_at, then inode_read_at of any extent: the bytes written where they overlap, the old
      bytes everywhere else. */
  method WriteThenRead(dev: seq<Sector>, start: nat, length: nat, denied: bool, data: seq<Byte>, offset: nat,
                       start': nat, length': nat, size: int, offset': nat)
    returns (written: nat, buffer: seq<Byte>)
    requires OnDevice(dev, start, length) && OnDevice(dev, start', length')
    ensures written == if denied then 0 else Transfer(length, |data|, offset)
    ensures |buffer| == Transfer(length', size, offset')
    ensures forall i :: 0 <= i < |buffer| ==>
      var at, from := SECTOR_SIZE * start' + offset' + i, SECTOR_SIZE * start + offset;
      buffer[i] == if from <= at < from + written then data[at - from] else Flat(dev)[at]
    ensures (start', length', size, offset') == (start, length, |data|, offset) && !denied ==> buffer == data[..written]
  {
    hide Flat;
    var dev';
    dev', written := InodeWriteAt(dev, start, length, denied, data, offset);
    buffer := InodeReadAt(dev', start', length', size, offset');
    ghost var from, a := SECTOR_SIZE * start + offset, SECTOR_SIZE * start' + offset';
    forall i | 0 <= i < |buffer|
      ensures buffer[i] == if from <= a + i < from + written then data[a + i - from] else Flat(dev)[a + i]
    {
      assert buffer[i] == Flat(dev')[a + i];
    }
  }
}
