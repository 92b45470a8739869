// Files as sequences of bytes over a disk that only moves whole sectors.

module OpenFiles {
  import opened DiskGeometry
  import opened Bytes
  import opened Sequences

  const NUM_DIRECT: nat := 30
  const MAX_FILE_SIZE: nat := NUM_DIRECT * SECTOR_SIZE

  type Sector = seq<Byte>

  /** A file header (`FileHeader`): the length in bytes and the sectors of the data.
      Only the first `numSectors` entries of the table mean anything. */
  datatype Header = Header(numBytes: nat, numSectors: nat, dataSectors: seq<nat>)

  ghost predicate DiskOk(d: seq<Sector>) {
    |d| == NUM_SECTORS && forall s :: 0 <= s < |d| ==> |d[s]| == SECTOR_SIZE
  }

  /** As many sectors as the bytes need: one fewer would not do. */
  function SectorsFor(size: nat): (n: nat)
    ensures size <= n * SECTOR_SIZE < size + SECTOR_SIZE
  {
    (size + SECTOR_SIZE - 1) / SECTOR_SIZE
  }

  predicate Enough(n: nat, size: nat) {
    size <= n * SECTOR_SIZE
  }

  /** Some number of sectors, out of those that are free, is enough. */
  ghost predicate Affords(free: int, size: nat) {
    exists n: nat :: n <= free && Enough(n, size)
  }

  lemma LeastSectors(size: nat, n: nat)
    ensures Enough(n, size) <==> SectorsFor(size) <= n
  {
    hide SectorsFor;
  }

  lemma AffordsLeast(free: int, size: nat)
    ensures Affords(free, size) <==> SectorsFor(size) <= free
  {
    LeastSectors(size, SectorsFor(size));
    hide SectorsFor, Enough;
    if Affords(free, size) {
      var n: nat :| n <= free && Enough(n, size);
      LeastSectors(size, n);
    }
  }

  /** The table has room for the file and names different sectors of the disk. */
  ghost predicate HeaderOk(h: Header) {
    && h.numBytes <= MAX_FILE_SIZE && h.numSectors == SectorsFor(h.numBytes) && |h.dataSectors| == NUM_DIRECT
    && (forall i :: 0 <= i < h.numSectors ==> h.dataSectors[i] < NUM_SECTORS)
    && Distinct(h.dataSectors[..h.numSectors])
  }

  ghost function DataSet(h: Header): set<nat>
    requires HeaderOk(h)
  {
    set i | 0 <= i < h.numSectors :: h.dataSectors[i]
  }

  /** Where byte `i` of the file is on the disk. */
  function ByteToSector(h: Header, i: nat): nat
    requires i / SECTOR_SIZE < |h.dataSectors|
  {
    h.dataSectors[i / SECTOR_SIZE]
  }

  ghost function ByteAt(d: seq<Sector>, h: Header, i: nat): Byte
    requires DiskOk(d) && HeaderOk(h) && i < h.numBytes
  {
    d[h.dataSectors[i / SECTOR_SIZE]][i % SECTOR_SIZE]
  }

  /** The file as a flat sequence of bytes. */
  ghost function Contents(d: seq<Sector>, h: Header): (r: seq<Byte>)
    requires DiskOk(d) && HeaderOk(h)
    ensures |r| == h.numBytes
  {
    seq(h.numBytes, i requires 0 <= i < h.numBytes => ByteAt(d, h, i))
  }

  /** How much of a request lies in the file. */
  function Clip(length: nat, count: nat, position: nat): (n: nat)
    ensures n <= count && (n > 0 ==> position + n <= length)
    ensures n == count || position + n >= length
  {
    if position >= length then 0 else if position + count > length then length - position else count
  }

  /** The disk after a write to the file `h`: its bytes are these, and no sector of any
      other file has changed. What is behind the end of the file in its last sector is
      not said. */
  ghost predicate Wrote(d: seq<Sector>, d': seq<Sector>, h: Header, bytes: seq<Byte>)
    requires DiskOk(d) && HeaderOk(h)
  {
    && DiskOk(d')
    && (forall s :: 0 <= s < NUM_SECTORS && s !in DataSet(h) ==> d'[s] == d[s])
    && Contents(d', h) == bytes
  }

  /** A write to one file leaves the bytes of a file on other sectors alone. */
  lemma WroteElsewhere(d: seq<Sector>, d': seq<Sector>, h: Header, bytes: seq<Byte>, g: Header)
    requires DiskOk(d) && HeaderOk(h) && Wrote(d, d', h, bytes)
    requires HeaderOk(g) && DataSet(g) !! DataSet(h)
    ensures Contents(d', g) == Contents(d, g)
  {
    forall i | 0 <= i < g.numBytes ensures Contents(d', g)[i] == Contents(d, g)[i] {
      assert g.dataSectors[i / SECTOR_SIZE] in DataSet(g);
    }
  }

  // ---------------------------------------------------------------- the synchronous disk

  class SynchDisk {
    var sectors: seq<Sector>

    ghost predicate Valid()
      reads this
    {
      DiskOk(sectors)
    }

    constructor (initial: seq<Sector>)
      requires DiskOk(initial)
      ensures Valid() && sectors == initial
    {
      sectors := initial;
    }

    method ReadSector(s: nat) returns (data: Sector)
      requires Valid() && s < NUM_SECTORS
      ensures data == sectors[s]
    {
      data := sectors[s];
    }

    method WriteSector(s: nat, data: Sector)
      requires Valid() && s < NUM_SECTORS && |data| == SECTOR_SIZE
      modifies this
      ensures Valid() && sectors == old(sectors)[s := data]
    {
      sectors := sectors[s := data];
    }
  }

  // ---------------------------------------------------------------- an open file

  class OpenFile {
    const hdr: Header
    const disk: SynchDisk
    var seekPosition: nat

    ghost predicate Valid()
      reads disk
    {
      disk.Valid() && HeaderOk(hdr)
    }

    ghost function Bytes(): seq<Byte>
      requires Valid()
      reads disk
    {
      Contents(disk.sectors, hdr)
    }

    constructor (disk: SynchDisk, hdr: Header)
      requires disk.Valid() && HeaderOk(hdr)
      ensures Valid() && this.disk == disk && this.hdr == hdr && seekPosition == 0
    {
      this.disk, this.hdr := disk, hdr;
      seekPosition := 0;
    }

    method Seek(position: nat)
      modifies this
      ensures seekPosition == position
    {
      seekPosition := position;
    }

    /** `ReadAt`: the bytes of the request that lie in the file. */
    method ReadAt(count: nat, position: nat) returns (into: seq<Byte>)
      requires Valid()
      ensures |into| == Clip(hdr.numBytes, count, position)
      ensures position <= hdr.numBytes ==> into == Bytes()[position..position + |into|]
    {
      hide Contents, Holds;
      var fileLength := hdr.numBytes;
      if count == 0 || position >= fileLength {
        return [];
      }
      var n := if position + count > fileLength then fileLength - position else count;
      var firstSector := position / SECTOR_SIZE;
      var lastSector := (position + n - 1) / SECTOR_SIZE;
      var buf: seq<Byte> := [];
      HoldsNone(Bytes(), firstSector * SECTOR_SIZE);
      var i := firstSector;
      while i <= lastSector
        invariant firstSector <= i <= lastSector + 1
        invariant |buf| == (i - firstSector) * SECTOR_SIZE
        invariant Holds(buf, Bytes(), firstSector * SECTOR_SIZE)
      {
        SectorHolds(disk.sectors, hdr, i);
        var data := disk.ReadSector(ByteToSector(hdr, i * SECTOR_SIZE));
        HoldsMore(buf, data, Bytes(), firstSector * SECTOR_SIZE);
        buf := buf + data;
        i := i + 1;
      }
      var off := position - firstSector * SECTOR_SIZE;
      into := buf[off..off + n];
      HoldsPart(buf, Bytes(), firstSector * SECTOR_SIZE, off, n);
    }

    /** Fill `buf` from index `at`. */
    static method CopyInto(buf: array<Byte>, at: nat, bytes: seq<Byte>)
      requires at + |bytes| <= buf.Length
      modifies buf
      ensures buf[..] == Splice(old(buf[..]), at, bytes)
    {
      var i := 0;
      while i < |bytes|
        invariant 0 <= i <= |bytes|
        invariant forall j :: 0 <= j < buf.Length ==>
          buf[j] == if at <= j < at + i then bytes[j - at] else old(buf[j])
      {
        buf[at + i] := bytes[i];
        i := i + 1;
      }
      assert buf[..] == Splice(old(buf[..]), at, bytes);
    }

    /** Read the sector at offset `base + at` of the file to index `at` of the buffer. */
    method LoadInto(buf: array<Byte>, base: nat, at: nat)
      requires Valid() && at + SECTOR_SIZE <= buf.Length && base + at <= hdr.numBytes
      modifies buf
      ensures buf[..] == WithSector(Bytes(), base, old(buf[..]), at)
    {
      hide Contents;
      var data := ReadAt(SECTOR_SIZE, base + at);
      CopyInto(buf, at, data);
    }

    /** Fetch the sectors that will be partly overwritten, and put the new bytes over
        them: then the buffer holds, for every byte of the file in these sectors, what it
        shall be after the write. */
    method FillBuffer(buf: array<Byte>, from: seq<Byte>, position: nat)
      requires Valid()
      requires 0 < |from| && position + |from| <= hdr.numBytes
      requires buf.Length == (1 + (position + |from| - 1) / SECTOR_SIZE - position / SECTOR_SIZE) * SECTOR_SIZE
      modifies buf
      ensures Holds(buf[..], Splice(Bytes(), position, from), position / SECTOR_SIZE * SECTOR_SIZE)
    {
      hide Contents, Holds, WithSector;
      var n := |from|;
      var first, last := position / SECTOR_SIZE, (position + n - 1) / SECTOR_SIZE;
      var base := first * SECTOR_SIZE;
      var firstAligned := position == base;
      var lastAligned := position + n == (last + 1) * SECTOR_SIZE;
      ghost var b0 := buf[..];
      if !firstAligned {
        LoadInto(buf, base, 0);
      }
      ghost var b1 := buf[..];
      if !lastAligned && (first != last || firstAligned) {
        LoadInto(buf, base, (last - first) * SECTOR_SIZE);
      }
      ghost var b2 := buf[..];
      CopyInto(buf, position - base, from);
      BufferHolds(Bytes(), from, position, first, last, b0, b1, b2);
    }

    /** `WriteAt`: the part of the request that lies in the file is spliced into it. Every
        other byte of the file, the rest of the last sector included, and every sector of
        other files stay as they are. */
    method WriteAt(from: seq<Byte>, position: nat) returns (written: nat)
      requires Valid()
      modifies disk
      ensures Valid() && written == Clip(hdr.numBytes, |from|, position)
      ensures written > 0 ==>
        && position + written <= hdr.numBytes
        && Wrote(old(disk.sectors), disk.sectors, hdr, Splice(old(Bytes()), position, from[..written]))
      ensures written == 0 ==> disk.sectors == old(disk.sectors)
    {
      hide Contents, Holds, Progress, DataSet;
      var fileLength := hdr.numBytes;
      if |from| == 0 || position >= fileLength {
        return 0;
      }
      written := if position + |from| > fileLength then fileLength - position else |from|;
      ghost var d, target := disk.sectors, Splice(Bytes(), position, from[..written]);
      var first, last := position / SECTOR_SIZE, (position + written - 1) / SECTOR_SIZE;
      var buf := new Byte[(1 + last - first) * SECTOR_SIZE];
      FillBuffer(buf, from[..written], position);
      ghost var b := buf[..];
      var i := first;
      ProgressStarts(d, hdr, b, first);
      while i <= last
        invariant first <= i <= last + 1 && Valid() && buf[..] == b
        invariant Progress(d, disk.sectors, hdr, b, first, i)
      {
        ghost var di := disk.sectors;
        var data := buf[(i - first) * SECTOR_SIZE..(i - first + 1) * SECTOR_SIZE];
        disk.WriteSector(ByteToSector(hdr, i * SECTOR_SIZE), data);
        assert data == b[(i - first) * SECTOR_SIZE..(i - first + 1) * SECTOR_SIZE];
        ProgressNext(d, di, hdr, b, first, i, data);
        i := i + 1;
      }
      SpliceOutside(d, hdr, position, from[..written], first, last);
      ProgressEnds(d, disk.sectors, hdr, b, first, last, target);
    }

    /** `Read` and `Write` go on from the seek position. */
    method Read(count: nat) returns (into: seq<Byte>)
      requires Valid()
      modifies this
      ensures |into| == Clip(hdr.numBytes, count, old(seekPosition))
      ensures seekPosition == old(seekPosition) + |into|
      ensures old(seekPosition) <= hdr.numBytes ==> into == Bytes()[old(seekPosition)..seekPosition]
    {
      into := ReadAt(count, seekPosition);
      seekPosition := seekPosition + |into|;
    }

    method Write(from: seq<Byte>) returns (written: nat)
      requires Valid()
      modifies this, disk
      ensures Valid() && written == Clip(hdr.numBytes, |from|, old(seekPosition))
      ensures seekPosition == old(seekPosition) + written
      ensures written > 0 ==>
        && seekPosition <= hdr.numBytes
        && Wrote(old(disk.sectors), disk.sectors, hdr, Splice(old(Bytes()), old(seekPosition), from[..written]))
      ensures written == 0 ==> disk.sectors == old(disk.sectors)
    {
      written := WriteAt(from, seekPosition);
      seekPosition := seekPosition + written;
    }

    /** What is written is read back, whatever part of the request lay in the file. */
    method WriteThenRead(from: seq<Byte>, position: nat) returns (into: seq<Byte>)
      requires Valid()
      modifies disk
      ensures Valid() && into == from[..Clip(hdr.numBytes, |from|, position)]
    {
      var written := WriteAt(from, position);
      into := ReadAt(|from|, position);
    }
  }

  /** Sector `i` of the file holds its bytes from i * SECTOR_SIZE on. */
  lemma SectorHolds(d: seq<Sector>, h: Header, i: nat)
    requires DiskOk(d) && HeaderOk(h) && i < h.numSectors
    ensures h.dataSectors[i] < NUM_SECTORS
    ensures Holds(d[h.dataSectors[i]], Contents(d, h), i * SECTOR_SIZE)
  {
    forall j | 0 <= j < SECTOR_SIZE && i * SECTOR_SIZE + j < h.numBytes
      ensures d[h.dataSectors[i]][j] == Contents(d, h)[i * SECTOR_SIZE + j]
    {
      assert (i * SECTOR_SIZE + j) / SECTOR_SIZE == i && (i * SECTOR_SIZE + j) % SECTOR_SIZE == j;
    }
  }

  /** The buffer agrees with `target` from `base` on, as far as both go. */
  ghost predicate Holds(buf: seq<Byte>, target: seq<Byte>, base: nat) {
    forall j :: 0 <= j < |buf| && base + j < |target| ==> buf[j] == target[base + j]
  }

  lemma HoldsNone(target: seq<Byte>, base: nat)
    ensures Holds([], target, base)
  {
  }

  lemma HoldsMore(buf: seq<Byte>, data: seq<Byte>, target: seq<Byte>, base: nat)
    requires Holds(buf, target, base) && Holds(data, target, base + |buf|)
    ensures Holds(buf + data, target, base)
  {
  }

  lemma HoldsPart(buf: seq<Byte>, target: seq<Byte>, base: nat, off: nat, n: nat)
    requires Holds(buf, target, base) && off + n <= |buf| && base + off + n <= |target|
    ensures buf[off..off + n] == target[base + off..base + off + n]
  {
  }

  /** The buffer with the sector at offset `base + at` of the file at index `at`. */
  ghost function WithSector(bytes: seq<Byte>, base: nat, b: seq<Byte>, at: nat): (r: seq<Byte>)
    requires at + SECTOR_SIZE <= |b| && base + at <= |bytes|
    ensures |r| == |b|
  {
    Splice(b, at, bytes[base + at..base + at + Clip(|bytes|, SECTOR_SIZE, base + at)])
  }

  lemma SectorByte(bytes: seq<Byte>, base: nat, b: seq<Byte>, at: nat, j: nat)
    requires at + SECTOR_SIZE <= |b| && base + at <= |bytes|
    requires at <= j < at + SECTOR_SIZE && base + j < |bytes|
    ensures WithSector(bytes, base, b, at)[j] == bytes[base + j]
  {
  }

  /** The two reads of a write, and when they are made. */
  ghost predicate EdgesRead(bytes: seq<Byte>, position: nat, n: nat, first: nat, last: nat,
                            b0: seq<Byte>, b1: seq<Byte>, b2: seq<Byte>)
  {
    && 0 < n && position + n <= |bytes|
    && first == position / SECTOR_SIZE && last == (position + n - 1) / SECTOR_SIZE
    && |b0| == |b1| == |b2| == (1 + last - first) * SECTOR_SIZE
    && var base := first * SECTOR_SIZE;
    && b1 == (if position == base then b0 else WithSector(bytes, base, b0, 0))
    && b2 == (if position + n != (last + 1) * SECTOR_SIZE && (first != last || position == base)
              then WithSector(bytes, base, b1, (last - first) * SECTOR_SIZE) else b1)
  }

  lemma EdgeByte(bytes: seq<Byte>, position: nat, n: nat, first: nat, last: nat,
                 b0: seq<Byte>, b1: seq<Byte>, b2: seq<Byte>, j: nat)
    requires EdgesRead(bytes, position, n, first, last, b0, b1, b2)
    requires j < |b2| && first * SECTOR_SIZE + j < |bytes|
    requires first * SECTOR_SIZE + j < position || position + n <= first * SECTOR_SIZE + j
    ensures b2[j] == bytes[first * SECTOR_SIZE + j]
  {
    var base := first * SECTOR_SIZE;
    if base + j < position || (first == last && position != base) {
      SectorByte(bytes, base, b0, 0, j);
    } else {
      SectorByte(bytes, base, b1, (last - first) * SECTOR_SIZE, j);
    }
  }

  lemma EdgeSizes(bytes: seq<Byte>, position: nat, n: nat, first: nat, last: nat,
                  b0: seq<Byte>, b1: seq<Byte>, b2: seq<Byte>)
    requires EdgesRead(bytes, position, n, first, last, b0, b1, b2)
    ensures first * SECTOR_SIZE <= position && position + n <= first * SECTOR_SIZE + |b2| && position + n <= |bytes|
  {
  }

  lemma BufferHolds(bytes: seq<Byte>, from: seq<Byte>, position: nat, first: nat, last: nat,
                    b0: seq<Byte>, b1: seq<Byte>, b2: seq<Byte>)
    requires EdgesRead(bytes, position, |from|, first, last, b0, b1, b2)
    ensures Holds(Splice(b2, position - first * SECTOR_SIZE, from), Splice(bytes, position, from), first * SECTOR_SIZE)
  {
    EdgeSizes(bytes, position, |from|, first, last, b0, b1, b2);
    hide EdgesRead, Splice;
    var base := first * SECTOR_SIZE;
    var at := position - base;
    forall j | 0 <= j < |b2| && base + j < |bytes| && !(at <= j < at + |from|)
      ensures b2[j] == bytes[base + j]
    {
      EdgeByte(bytes, position, |from|, first, last, b0, b1, b2, j);
    }
    SpliceHolds(b2, bytes, at, base, from);
  }

  lemma SpliceHolds(b: seq<Byte>, bytes: seq<Byte>, at: nat, base: nat, from: seq<Byte>)
    requires at + |from| <= |b| && base + at + |from| <= |bytes|
    requires forall j :: 0 <= j < |b| && base + j < |bytes| && !(at <= j < at + |from|) ==> b[j] == bytes[base + j]
    ensures Holds(Splice(b, at, from), Splice(bytes, base + at, from), base)
  {
  }

  /** The sectors from `first` up to `i` of the file hold the buffer, all others what
      they held before. */
  ghost predicate Progress(d: seq<Sector>, d': seq<Sector>, h: Header, b: seq<Byte>, first: nat, i: nat)
    requires DiskOk(d) && DiskOk(d') && HeaderOk(h)
  {
    && (forall s :: 0 <= s < NUM_SECTORS && s !in DataSet(h) ==> d'[s] == d[s])
    && (forall k :: 0 <= k < h.numSectors ==>
          d'[h.dataSectors[k]] ==
          if first <= k < i && (k - first + 1) * SECTOR_SIZE <= |b|
          then b[(k - first) * SECTOR_SIZE..(k - first + 1) * SECTOR_SIZE] else d[h.dataSectors[k]])
  }

  lemma ProgressStarts(d: seq<Sector>, h: Header, b: seq<Byte>, first: nat)
    requires DiskOk(d) && HeaderOk(h)
    ensures Progress(d, d, h, b, first, first)
  {
  }

  lemma ProgressNext(d: seq<Sector>, di: seq<Sector>, h: Header, b: seq<Byte>, first: nat, i: nat, data: seq<Byte>)
    requires DiskOk(d) && DiskOk(di) && HeaderOk(h) && first <= i < h.numSectors
    requires (i - first + 1) * SECTOR_SIZE <= |b|
    requires data == b[(i - first) * SECTOR_SIZE..(i - first + 1) * SECTOR_SIZE]
    requires Progress(d, di, h, b, first, i)
    ensures DiskOk(di[h.dataSectors[i] := data]) && Progress(d, di[h.dataSectors[i] := data], h, b, first, i + 1)
  {
    var d' := di[h.dataSectors[i] := data];
    assert h.dataSectors[i] in DataSet(h);
    forall k | 0 <= k < h.numSectors && k != i ensures h.dataSectors[k] != h.dataSectors[i] {
      assert h.dataSectors[..h.numSectors][k] != h.dataSectors[..h.numSectors][i];
    }
  }

  lemma SpliceOutside(d: seq<Sector>, h: Header, position: nat, bytes: seq<Byte>, first: nat, last: nat)
    requires DiskOk(d) && HeaderOk(h) && 0 < |bytes| && position + |bytes| <= h.numBytes
    requires first == position / SECTOR_SIZE && last == (position + |bytes| - 1) / SECTOR_SIZE
    ensures forall j :: 0 <= j < h.numBytes && !(first * SECTOR_SIZE <= j < (last + 1) * SECTOR_SIZE) ==>
      Splice(Contents(d, h), position, bytes)[j] == Contents(d, h)[j]
  {
    hide Contents;
  }

  lemma ProgressEnds(d: seq<Sector>, d': seq<Sector>, h: Header, b: seq<Byte>, first: nat, last: nat, target: seq<Byte>)
    requires DiskOk(d) && DiskOk(d') && HeaderOk(h) && |target| == h.numBytes
    requires first <= last < h.numSectors && |b| == (1 + last - first) * SECTOR_SIZE
    requires Progress(d, d', h, b, first, last + 1)
    requires Holds(b, target, first * SECTOR_SIZE)
    requires forall j :: 0 <= j < h.numBytes && !(first * SECTOR_SIZE <= j < (last + 1) * SECTOR_SIZE) ==>
      target[j] == Contents(d, h)[j]
    ensures Wrote(d, d', h, target)
  {
    forall j | 0 <= j < h.numBytes ensures Contents(d', h)[j] == target[j] {
      var k := j / SECTOR_SIZE;
      if first <= k <= last {
        assert d'[h.dataSectors[k]] == b[(k - first) * SECTOR_SIZE..(k - first + 1) * SECTOR_SIZE];
        assert d'[h.dataSectors[k]][j % SECTOR_SIZE] == b[j - first * SECTOR_SIZE];
      } else {
        assert d'[h.dataSectors[k]] == d[h.dataSectors[k]];
      }
    }
  }
}
