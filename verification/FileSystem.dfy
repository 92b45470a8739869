// The file system operations: format, create, open and remove. They fetch the
// directory and the bitmap from their files, edit the copies, and write them back.

module FileSystems {
  import opened DiskGeometry
  import opened Bytes
  import opened Sequences
  import opened OpenFiles
  import opened FsFormat
  import opened FsState
  import opened FreeBits
  import opened Bitmaps

  // ---------------------------------------------------------------- the bitmap file

  /** `BitMap::FetchFrom`. */
  method FetchMap(freeMap: BitMap, file: OpenFile)
    requires freeMap.Valid() && freeMap.numBits == NUM_SECTORS
    requires file.Valid() && file.hdr.numBytes == FREE_MAP_FILE_SIZE
    modifies freeMap.words
    ensures freeMap.Bits() == DecodeBits(file.Bytes())
  {
    var bytes := file.ReadAt(FREE_MAP_FILE_SIZE, 0);
    assert bytes == file.Bytes();
    hide NumBit, Contents;
    ghost var target := DecodeBits(bytes);
    var i := 0;
    while i < NUM_SECTORS
      invariant 0 <= i <= NUM_SECTORS && freeMap.Valid()
      invariant forall j :: 0 <= j < i ==> freeMap.Bits()[j] == target[j]
    {
      if NumBit(bytes[i / 8], i % 8) {
        freeMap.Mark(i);
      } else {
        freeMap.Clear(i);
      }
      i := i + 1;
    }
  }

  /** `BitMap::WriteBack`. */
  method WriteMap(freeMap: BitMap, file: OpenFile)
    requires freeMap.Valid() && freeMap.numBits == NUM_SECTORS
    requires file.Valid() && file.hdr.numBytes == FREE_MAP_FILE_SIZE
    modifies file.disk
    ensures file.Valid()
    ensures Wrote(old(file.disk.sectors), file.disk.sectors, file.hdr, EncodeBits(freeMap.Bits()))
  {
    hide Pack, Contents;
    ghost var bits := freeMap.Bits();
    var bytes: seq<Byte> := [];
    while |bytes| < FREE_MAP_FILE_SIZE
      invariant |bytes| <= FREE_MAP_FILE_SIZE && freeMap.Bits() == bits
      invariant file.disk.sectors == old(file.disk.sectors)
      invariant forall k :: 0 <= k < |bytes| ==> bytes[k] == EncodeBits(bits)[k]
    {
      var eight: seq<bool> := [];
      while |eight| < 8
        invariant |eight| <= 8 && |bytes| < FREE_MAP_FILE_SIZE && freeMap.Bits() == bits
        invariant file.disk.sectors == old(file.disk.sectors)
        invariant forall j :: 0 <= j < |eight| ==> eight[j] == bits[8 * |bytes| + j]
      {
        var b := freeMap.Test(8 * |bytes| + |eight|);
        eight := eight + [b];
      }
      assert eight == bits[8 * |bytes|..8 * |bytes| + 8];
      bytes := bytes + [PackByte(eight)];
    }
    assert bytes == EncodeBits(bits);
    WholeSplice(file.Bytes(), bytes);
    var n := file.WriteAt(bytes, 0);
    assert bytes[..n] == bytes;
  }

  lemma WholeSplice(s: seq<Byte>, bytes: seq<Byte>)
    requires |s| == |bytes|
    ensures Splice(s, 0, bytes) == bytes
  {
  }

  // ---------------------------------------------------------------- the directory

  ghost predicate AllPadded(t: seq<DirEntry>)
    requires TableFits(t)
  {
    forall j :: 0 <= j < |t| && t[j].inUse ==> Padded(t[j].name)
  }

  class Directory {
    var table: seq<DirEntry>

    constructor ()
      ensures TableFits(table) && forall i :: 0 <= i < |table| ==> !table[i].inUse
    {
      table := seq(NUM_DIR_ENTRIES, _ => DirEntry(false, 0, seq(FILE_NAME_MAX_LEN + 1, _ => 0)));
    }

    method FetchFrom(file: OpenFile)
      requires file.Valid() && file.hdr.numBytes == DIRECTORY_FILE_SIZE
      modifies this
      ensures table == DecodeDir(file.Bytes())
    {
      var bytes := file.ReadAt(DIRECTORY_FILE_SIZE, 0);
      assert bytes == file.Bytes();
      table := DecodeDir(bytes);
    }

    method WriteBack(file: OpenFile)
      requires TableFits(table) && file.Valid() && file.hdr.numBytes == DIRECTORY_FILE_SIZE
      modifies file.disk
      ensures file.Valid()
      ensures Wrote(old(file.disk.sectors), file.disk.sectors, file.hdr, EncodeDir(table))
    {
      hide EncodeEntry, Contents;
      var bytes := EncodeDir(table);
      WholeSplice(file.Bytes(), bytes);
      var n := file.WriteAt(bytes, 0);
      assert bytes[..n] == bytes;
    }

    /** The place of the file with this name, -1 if there is none. */
    method FindIndex(name: seq<Byte>) returns (i: int)
      requires TableFits(table) && NoNul(name)
      requires AllPadded(table)
      ensures i >= 0 ==> Names(table, i, Key(name))
      ensures i >= 0 <==> Key(name) in KeysOf(table)
      ensures i < 0 ==> i == -1
    {
      hide StrnEqual, Key;
      i := 0;
      while i < |table|
        invariant 0 <= i <= |table|
        invariant forall j :: 0 <= j < i ==> !(table[j].inUse && KeyOf(table[j]) == Key(name))
      {
        if table[i].inUse {
          StrnIsKey(table[i].name, name);
          if StrnEqual(table[i].name, name, 0) {
            return;
          }
        }
        i := i + 1;
      }
      i := -1;
    }

    method Find(name: seq<Byte>) returns (sector: int)
      requires TableFits(table) && NoNul(name)
      requires AllPadded(table)
      ensures sector >= 0 <==> Key(name) in KeysOf(table)
      ensures sector >= 0 ==> exists i: nat :: Names(table, i, Key(name)) && sector == table[i].sector
      ensures sector < 0 ==> sector == -1
    {
      var i := FindIndex(name);
      sector := if i != -1 then table[i].sector else -1;
    }

    /** Takes the first free entry; the tenth byte of the name stays as it was. */
    method Add(name: seq<Byte>, newSector: nat) returns (ok: bool)
      requires TableFits(table) && NoNul(name) && newSector < WORD_LIMIT
      requires AllPadded(table)
      modifies this
      ensures ok <==> Key(name) !in KeysOf(old(table)) && FirstFree(old(table), 0) < |old(table)|
      ensures ok ==> table == old(table)[FirstFree(old(table), 0) := NewEntry(old(table), name, newSector)]
      ensures !ok ==> table == old(table)
    {
      hide Key, Padded, KeysOf;
      var found := FindIndex(name);
      if found != -1 {
        return false;
      }
      var i := 0;
      while i < |table|
        invariant 0 <= i <= |table| && table == old(table)
        invariant FirstFree(table, 0) == FirstFree(table, i)
      {
        if !table[i].inUse {
          table := table[i := DirEntry(true, newSector, Key(name) + table[i].name[FILE_NAME_MAX_LEN..])];
          return true;
        }
        i := i + 1;
      }
      ok := false;
    }

    method Remove(name: seq<Byte>) returns (ok: bool)
      requires TableFits(table) && NoNul(name)
      requires AllPadded(table)
      modifies this
      ensures ok <==> Key(name) in KeysOf(old(table))
      ensures ok ==> exists i: nat ::
        Names(old(table), i, Key(name)) && table == old(table)[i := old(table)[i].(inUse := false)]
      ensures !ok ==> table == old(table)
    {
      var i := FindIndex(name);
      if i == -1 {
        return false;
      }
      table := table[i := table[i].(inUse := false)];
      ok := true;
    }
  }

  function FirstFree(t: seq<DirEntry>, i: nat): (r: nat)
    requires i <= |t|
    ensures i <= r <= |t|
    ensures r < |t| ==> !t[r].inUse
    ensures forall j :: i <= j < r ==> t[j].inUse
    decreases |t| - i
  {
    if i == |t| || !t[i].inUse then i else FirstFree(t, i + 1)
  }

  ghost function NewEntry(t: seq<DirEntry>, name: seq<Byte>, sector: nat): DirEntry
    requires TableFits(t) && FirstFree(t, 0) < |t|
  {
    DirEntry(true, sector, Key(name) + t[FirstFree(t, 0)].name[FILE_NAME_MAX_LEN..])
  }

  // ---------------------------------------------------------------- headers

  /** The sectors named by the first n entries. */
  ghost function Listed(xs: seq<nat>, n: nat): set<nat>
    requires n <= |xs|
  {
    set i | 0 <= i < n :: xs[i]
  }

  lemma ListedMore(xs: seq<nat>, n: nat, x: nat)
    requires n < |xs|
    ensures Listed(xs[n := x], n + 1) == Listed(xs, n) + {x}
  {
    forall y | y in Listed(xs, n) ensures y in Listed(xs[n := x], n + 1) {
      var i :| 0 <= i < n && xs[i] == y;
      assert xs[n := x][i] == y;
    }
    assert xs[n := x][n] == x;
  }

  /** The first i entries of the table name distinct sectors that were free in `bits`,
      and just those have been taken. */
  ghost predicate Taken(bits: seq<bool>, now: seq<bool>, data: seq<nat>, i: nat) {
    && |bits| == NUM_SECTORS && |data| == NUM_DIRECT && WordsOk(data) && i <= NUM_DIRECT
    && now == MarkedToo(bits, Listed(data, i))
    && ClearCount(now) == ClearCount(bits) - i
    && (forall s :: s in Listed(data, i) ==> s < NUM_SECTORS && !bits[s])
    && Distinct(data[..i])
  }

  lemma TakenMore(bits: seq<bool>, now: seq<bool>, data: seq<nat>, i: nat, s: nat)
    requires Taken(bits, now, data, i) && i < NUM_DIRECT && s < NUM_SECTORS && !now[s]
    ensures Taken(bits, now[s := true], data[i := s], i + 1)
  {
    ClearCountUpdate(now, s);
    hide ClearCount;
    ListedMore(data, i, s);
    assert forall j :: 0 <= j < i ==> data[j] in Listed(data, i);
    assert data[i := s][..i + 1] == data[..i] + [s];
  }

  lemma TakenNone(bits: seq<bool>, data: seq<nat>)
    requires |bits| == NUM_SECTORS && |data| == NUM_DIRECT && WordsOk(data)
    ensures Taken(bits, bits, data, 0)
  {
    assert bits == MarkedToo(bits, {});
  }

  /** `FileHeader::Allocate`: it fails if and only if there are too few free sectors, and
      then takes none; otherwise it takes distinct free ones. */
  method Allocate(freeMap: BitMap, size: nat) returns (ok: bool, h: Header)
    requires freeMap.Valid() && freeMap.numBits == NUM_SECTORS && size <= MAX_FILE_SIZE
    modifies freeMap.words
    ensures ok <==> Affords(ClearCount(old(freeMap.Bits())), size)
    ensures !ok ==> freeMap.Bits() == old(freeMap.Bits())
    ensures ok ==> ClearCount(freeMap.Bits()) == ClearCount(old(freeMap.Bits())) - h.numSectors
    ensures ok ==> size <= h.numSectors * SECTOR_SIZE < size + SECTOR_SIZE
    ensures ok ==> HeaderOk(h) && HeaderFits(h) && h.numBytes == size
    ensures ok ==> freeMap.Bits() == MarkedToo(old(freeMap.Bits()), DataSet(h))
    ensures ok ==> forall s :: s in DataSet(h) ==> s < NUM_SECTORS && !old(freeMap.Bits())[s]
  {
    hide ClearCount, FirstClear, BitMap.Bits, BitMap.Valid;
    ghost var bits := freeMap.Bits();
    var numSectors := SectorsFor(size);
    AffordsLeast(ClearCount(bits), size);
    var data: seq<nat> := seq(NUM_DIRECT, _ => 0);
    h := Header(size, numSectors, data);
    var clear := freeMap.NumClear();
    if clear < numSectors {
      return false, h;
    }
    TakenNone(bits, data);
    var i := 0;
    while i < numSectors
      invariant 0 <= i <= numSectors
      invariant Taken(bits, freeMap.Bits(), data, i)
    {
      ClearCountFound(freeMap.Bits());
      ghost var now := freeMap.Bits();
      var s := freeMap.Find();
      TakenMore(bits, now, data, i, s);
      data := data[i := s];
      i := i + 1;
    }
    h := Header(size, numSectors, data);
    AllocatedOk(h, i);
    ok := true;
  }

  lemma AllocatedOk(h: Header, n: nat)
    requires h.numBytes <= MAX_FILE_SIZE && n == h.numSectors == SectorsFor(h.numBytes)
    requires |h.dataSectors| == NUM_DIRECT && WordsOk(h.dataSectors) && Distinct(h.dataSectors[..n])
    requires forall s :: s in Listed(h.dataSectors, n) ==> s < NUM_SECTORS
    ensures HeaderOk(h) && HeaderFits(h) && DataSet(h) == Listed(h.dataSectors, n)
  {
    forall i | 0 <= i < n ensures h.dataSectors[i] < NUM_SECTORS {
      assert h.dataSectors[i] in Listed(h.dataSectors, n);
    }
  }

  /** `FileHeader::Deallocate`; the precondition is its assertion. */
  method Deallocate(freeMap: BitMap, h: Header)
    requires freeMap.Valid() && freeMap.numBits == NUM_SECTORS && HeaderOk(h)
    requires forall s :: s in DataSet(h) ==> freeMap.Bits()[s]
    modifies freeMap.words
    ensures freeMap.Bits() == Unmarked(old(freeMap.Bits()), DataSet(h))
  {
    ghost var bits := freeMap.Bits();
    assert freeMap.Bits() == Unmarked(bits, {});
    assert DataSet(h) == Listed(h.dataSectors, h.numSectors);
    var i := 0;
    while i < h.numSectors
      invariant 0 <= i <= h.numSectors
      invariant freeMap.Bits() == Unmarked(bits, Listed(h.dataSectors, i))
    {
      ListedMore(h.dataSectors, i, h.dataSectors[i]);
      assert h.dataSectors[i := h.dataSectors[i]] == h.dataSectors;
      freeMap.Clear(h.dataSectors[i]);
      i := i + 1;
    }
  }

  // ---------------------------------------------------------------- what the writes amount to

  lemma NotClaimed(d: seq<Sector>, o: nat, s: nat)
    requires FsInv(d) && o < OWNERS && s < NUM_SECTORS && !Bits(d)[s]
    ensures s !in Claim(d, Table(d), o)
  {
    hide Contents, Bits, Table, Claim;
    assert !Claimed(d, Table(d), s);
  }

  /** The three writes of a create. */
  lemma CreateWrites(d: seq<Sector>, d2: seq<Sector>, d3: seq<Sector>, i: nat, e: DirEntry, h: Header)
    requires Fresh(d, i, e, h)
    requires Wrote(d[e.sector := EncodeHeader(h)], d2, DirHdr(d), EncodeDir(Table(d)[i := e]))
    requires Wrote(d2, d3, MapHdr(d), EncodeBits(MarkedToo(Bits(d), Sectors(e.sector, h))))
    ensures Created(d, d3, i, e, h)
  {
    var hs := e.sector;
    assert Claim(d, Table(d), 0) !! Claim(d, Table(d), 1);
    NotClaimed(d, 0, hs);
    NotClaimed(d, 1, hs);
    hide Contents, Bits, Table, Apart, MarksClaimed, HeadersApart, FilesOk, DataSet, KeysOf;
    WroteElsewhere(d2, d3, MapHdr(d), EncodeBits(MarkedToo(Bits(d), Sectors(hs, h))), DirHdr(d));
    assert d3[hs] == EncodeHeader(h);
    HeaderRoundTrip(h);
  }

  /** The two writes of a remove. */
  lemma RemoveWrites(d: seq<Sector>, d1: seq<Sector>, d2: seq<Sector>, i: nat)
    requires FsInv(d) && i < NUM_DIR_ENTRIES && Table(d)[i].inUse
    requires Wrote(d, d1, MapHdr(d), EncodeBits(Unmarked(Bits(d), Claim(d, Table(d), i + 2))))
    requires Wrote(d1, d2, DirHdr(d), EncodeDir(Table(d)[i := Table(d)[i].(inUse := false)]))
    ensures Removed(d, d2, i)
  {
    assert Claim(d, Table(d), 0) !! Claim(d, Table(d), 1);
    hide Contents, Bits, Table, Apart, MarksClaimed, HeadersApart, FilesOk, DataSet, KeysOf;
    WroteElsewhere(d1, d2, DirHdr(d), EncodeDir(Table(d)[i := Table(d)[i].(inUse := false)]), MapHdr(d));
  }

  /** A freshly formatted disk: the two headers, an empty directory, and a bitmap that
      marks the headers and their data. */
  ghost predicate Formatted(d: seq<Sector>, mh: Header, dh: Header) {
    && DiskOk(d) && FormatHeaders(mh, dh)
    && d[FREE_MAP_SECTOR] == EncodeHeader(mh) && d[DIRECTORY_SECTOR] == EncodeHeader(dh)
    && (exists t :: EmptyTable(t) && Contents(d, dh) == EncodeDir(t))
    && Contents(d, mh) == EncodeBits(FormatBits(mh, dh))
  }

  ghost predicate EmptyTable(t: seq<DirEntry>) {
    TableFits(t) && forall i :: 0 <= i < |t| ==> !t[i].inUse
  }

  ghost function FormatBits(mh: Header, dh: Header): (r: seq<bool>)
    requires HeaderOk(mh) && HeaderOk(dh)
    ensures |r| == NUM_SECTORS
  {
    MarkedToo(seq(NUM_SECTORS, _ => false), Sectors(FREE_MAP_SECTOR, mh) + Sectors(DIRECTORY_SECTOR, dh))
  }

  /** The two headers have been given disjoint sectors, apart from the well-known ones. */
  ghost predicate FormatHeaders(mh: Header, dh: Header) {
    && HeaderOk(mh) && HeaderOk(dh) && HeaderFits(mh) && HeaderFits(dh)
    && mh.numBytes == FREE_MAP_FILE_SIZE && dh.numBytes == DIRECTORY_FILE_SIZE
    && FREE_MAP_SECTOR !in DataSet(mh) && DIRECTORY_SECTOR !in DataSet(mh)
    && FREE_MAP_SECTOR !in DataSet(dh) && DIRECTORY_SECTOR !in DataSet(dh)
    && DataSet(mh) !! DataSet(dh)
  }

  /** The bitmap of a new disk and the headers of the two well-known files. */
  method FormatMap() returns (freeMap: BitMap, mh: Header, dh: Header)
    ensures FormatHeaders(mh, dh)
    ensures fresh(freeMap) && fresh(freeMap.words) && freeMap.Valid() && freeMap.numBits == NUM_SECTORS
    ensures freeMap.Bits() == FormatBits(mh, dh)
  {
    hide ClearCount;
    freeMap := new BitMap(NUM_SECTORS);
    ghost var b0 := freeMap.Bits();
    ClearCountAll(b0);
    ClearCountUpdate(b0, FREE_MAP_SECTOR);
    freeMap.Mark(FREE_MAP_SECTOR);
    ClearCountUpdate(b0[FREE_MAP_SECTOR := true], DIRECTORY_SECTOR);
    freeMap.Mark(DIRECTORY_SECTOR);
    var ok, ok';
    AffordsLeast(ClearCount(freeMap.Bits()), FREE_MAP_FILE_SIZE);
    ok, mh := Allocate(freeMap, FREE_MAP_FILE_SIZE);
    AffordsLeast(ClearCount(freeMap.Bits()), DIRECTORY_FILE_SIZE);
    ok', dh := Allocate(freeMap, DIRECTORY_FILE_SIZE);
    hide DataSet, HeaderOk, HeaderFits;
    assert freeMap.Bits() == FormatBits(mh, dh);
  }

  /** The four writes of a format. */
  lemma FormatWrites(d0: seq<Sector>, d1: seq<Sector>, d2: seq<Sector>, mh: Header, dh: Header, t: seq<DirEntry>)
    requires FormatHeaders(mh, dh) && DiskOk(d0) && EmptyTable(t)
    requires d0[FREE_MAP_SECTOR] == EncodeHeader(mh) && d0[DIRECTORY_SECTOR] == EncodeHeader(dh)
    requires Wrote(d0, d1, mh, EncodeBits(FormatBits(mh, dh)))
    requires Wrote(d1, d2, dh, EncodeDir(t))
    ensures Formatted(d2, mh, dh)
  {
    hide Contents, DataSet, HeaderOk, HeaderFits, EncodeHeader, EncodeDir, EncodeBits, FormatBits;
    WroteElsewhere(d1, d2, dh, EncodeDir(t), mh);
    assert EmptyTable(t) && Contents(d2, dh) == EncodeDir(t);
  }

  lemma FormatMeta(d: seq<Sector>, mh: Header, dh: Header)
    requires Formatted(d, mh, dh)
    ensures MetaOk(d) && MapHdr(d) == mh && DirHdr(d) == dh
    ensures EmptyTable(Table(d)) && Bits(d) == FormatBits(mh, dh)
  {
    hide Contents, FormatBits, DataSet;
    HeaderRoundTrip(mh);
    HeaderRoundTrip(dh);
    var t :| EmptyTable(t) && Contents(d, dh) == EncodeDir(t);
    DirRoundTrip(t);
    BitsRoundTrip(FormatBits(mh, dh));
    UpdatedViews(d, t, FormatBits(mh, dh));
  }

  /** Formatting gives a consistent, empty file system. */
  lemma FormatKeeps(d: seq<Sector>, mh: Header, dh: Header)
    requires Formatted(d, mh, dh)
    ensures FsInv(d) && Files(d) == map[]
  {
    FormatMeta(d, mh, dh);
    hide Contents, Bits, Table, DataSet;
    var t := Table(d);
    forall s: nat | s < NUM_SECTORS ensures Bits(d)[s] <==> Claimed(d, t, s) {
      if Bits(d)[s] {
        assert s in Claim(d, t, 0) || s in Claim(d, t, 1);
      }
    }
  }

  lemma NewIsFresh(d: seq<Sector>, name: seq<Byte>, sector: nat, h: Header)
    requires FsInv(d) && NoNul(name) && Key(name) !in KeysOf(Table(d))
    requires FirstFree(Table(d), 0) < NUM_DIR_ENTRIES && sector < NUM_SECTORS && !Bits(d)[sector]
    requires HeaderOk(h) && HeaderFits(h)
    requires forall s :: s in DataSet(h) ==> s < NUM_SECTORS && s != sector && !Bits(d)[s]
    ensures Fresh(d, FirstFree(Table(d), 0), NewEntry(Table(d), name, sector), h)
    ensures KeyOf(NewEntry(Table(d), name, sector)) == Key(name)
  {
    hide Contents, Bits, Table, Apart, MarksClaimed, HeadersApart, KeysOf, FirstFree;
    var e := NewEntry(Table(d), name, sector);
    assert e.name[..FILE_NAME_MAX_LEN] == Key(name);
    KeyPadded(name);
    assert forall i: nat :: i < FILE_NAME_MAX_LEN ==> CharAt(e.name, i) == CharAt(Key(name), i);
  }

  /** What a create needs. */
  ghost predicate Room(d: seq<Sector>, name: seq<Byte>, size: nat)
    requires FsInv(d)
  {
    && Key(name) !in KeysOf(Table(d))
    && FirstFree(Table(d), 0) < NUM_DIR_ENTRIES
    && Affords(ClearCount(Bits(d)) - 1, size)
  }

  /** The copies of the directory and the bitmap are ready to be written. */
  ghost predicate Prepared(d: seq<Sector>, name: seq<Byte>, sector: nat, h: Header, t: seq<DirEntry>, bits: seq<bool>)
    requires FsInv(d)
  {
    var i := FirstFree(Table(d), 0);
    && i < NUM_DIR_ENTRIES
    && Fresh(d, i, NewEntry(Table(d), name, sector), h)
    && KeyOf(NewEntry(Table(d), name, sector)) == Key(name)
    && t == Table(d)[i := NewEntry(Table(d), name, sector)]
    && bits == MarkedToo(Bits(d), Sectors(sector, h))
  }

  lemma NewIsPrepared(d: seq<Sector>, name: seq<Byte>, sector: nat, h: Header, t: seq<DirEntry>, bits: seq<bool>)
    requires FsInv(d) && NoNul(name) && Key(name) !in KeysOf(Table(d))
    requires FirstFree(Table(d), 0) < NUM_DIR_ENTRIES && sector < NUM_SECTORS && !Bits(d)[sector]
    requires HeaderOk(h) && HeaderFits(h)
    requires forall s :: s in DataSet(h) ==> s < NUM_SECTORS && !Bits(d)[sector := true][s]
    requires t == Table(d)[FirstFree(Table(d), 0) := NewEntry(Table(d), name, sector)]
    requires bits == MarkedToo(Bits(d)[sector := true], DataSet(h))
    ensures Prepared(d, name, sector, h, t, bits)
  {
    hide Contents, Bits, Table, FilesOk, Apart, MarksClaimed, HeadersApart, NamesUnique, KeysOf, Fresh, DataSet;
    NewIsFresh(d, name, sector, h);
    assert bits == MarkedToo(Bits(d), Sectors(sector, h));
  }

  lemma FreshFits(d: seq<Sector>, i: nat, e: DirEntry, h: Header)
    requires Fresh(d, i, e, h)
    ensures HeaderOk(h) && HeaderFits(h) && e.sector < NUM_SECTORS && TableFits(Table(d)[i := e])
  {
    hide Table, Bits, Contents, FilesOk, Apart, MarksClaimed, HeadersApart;
  }

  /** Writing the new header leaves the two well-known files alone. */
  lemma FreshElsewhere(d: seq<Sector>, d1: seq<Sector>, i: nat, e: DirEntry, h: Header)
    requires Fresh(d, i, e, h) && DiskOk(d1) && HeaderFits(h) && d1 == d[e.sector := EncodeHeader(h)]
    ensures MetaOk(d1) && MapHdr(d1) == MapHdr(d) && DirHdr(d1) == DirHdr(d)
  {
    NotClaimed(d, 0, e.sector);
    NotClaimed(d, 1, e.sector);
    hide Table, Bits, Contents, FilesOk, Apart, MarksClaimed, HeadersApart;
  }

  ghost predicate CreatedAt(d: seq<Sector>, d': seq<Sector>, i: nat, e: DirEntry, h: Header, k: seq<Byte>, size: nat) {
    Created(d, d', i, e, h) && KeyOf(e) == k && h.numBytes == size
  }

  /** d' is d after the create of a file with this name and size. */
  ghost predicate CreatedAs(d: seq<Sector>, d': seq<Sector>, name: seq<Byte>, size: nat) {
    exists i: nat, e, h :: CreatedAt(d, d', i, e, h, Key(name), size)
  }

  /** The files are the same, but for one more. */
  ghost predicate Added(m: map<seq<Byte>, seq<Byte>>, m': map<seq<Byte>, seq<Byte>>, k: seq<Byte>, size: nat) {
    k !in m && k in m' && |m'[k]| == size && m' == m[k := m'[k]]
  }

  lemma CreatedAdds(d: seq<Sector>, d': seq<Sector>, name: seq<Byte>, size: nat)
    requires CreatedAs(d, d', name, size)
    ensures FsInv(d) && FsInv(d') && Added(Files(d), Files(d'), Key(name), size)
  {
    var i: nat, e, h :| CreatedAt(d, d', i, e, h, Key(name), size);
    CreateKeeps(d, d', i, e, h);
    FilesKeys(d);
    hide Table, Bits, Contents, FilesOk, Apart, MarksClaimed, HeadersApart, NamesUnique, KeysOf, Files, Updated, HeaderOk, Key;
  }

  ghost predicate RemovedAt(d: seq<Sector>, d': seq<Sector>, i: nat, k: seq<Byte>) {
    Removed(d, d', i) && KeyOf(Table(d)[i]) == k
  }

  /** The copies of the directory and the bitmap without the file at place i. */
  ghost predicate Detached(d: seq<Sector>, i: nat, k: seq<Byte>, t: seq<DirEntry>, bits: seq<bool>)
    requires FsInv(d)
  {
    && i < NUM_DIR_ENTRIES && Table(d)[i].inUse && KeyOf(Table(d)[i]) == k
    && t == Table(d)[i := Table(d)[i].(inUse := false)]
    && bits == Unmarked(Bits(d), Claim(d, Table(d), i + 2))
  }

  /** d' is d after the remove of the file with this name. */
  ghost predicate RemovedAs(d: seq<Sector>, d': seq<Sector>, name: seq<Byte>) {
    exists i: nat :: RemovedAt(d, d', i, Key(name))
  }

  lemma FileMarked(d: seq<Sector>, i: nat, k: seq<Byte>)
    requires FsInv(d) && Names(Table(d), i, k)
    ensures i < NUM_DIR_ENTRIES && Table(d)[i].inUse && FileOk(d, Table(d)[i]) && KeyOf(Table(d)[i]) == k
    ensures Table(d)[i].sector < NUM_SECTORS && HeaderOk(HdrAt(d, Table(d)[i].sector))
    ensures HdrAt(d, Table(d)[i].sector) == DecodeHeader(d[Table(d)[i].sector])
    ensures Claim(d, Table(d), i + 2) == Sectors(Table(d)[i].sector, HdrAt(d, Table(d)[i].sector))
    ensures forall s :: s in DataSet(HdrAt(d, Table(d)[i].sector)) ==> s < NUM_SECTORS && Bits(d)[s]
  {
    hide Contents, Bits, Table;
    assert FileOk(d, Table(d)[i]);
    forall s | s in DataSet(HdrAt(d, Table(d)[i].sector)) ensures s < NUM_SECTORS && Bits(d)[s] {
      assert s in Claim(d, Table(d), i + 2);
      NotOther(d, i + 2, s);
    }
  }

  lemma OnlyPlace(d: seq<Sector>, i: nat, k: seq<Byte>)
    requires FsInv(d) && Names(Table(d), i, k)
    ensures forall j: nat :: Names(Table(d), j, k) ==> j == i
  {
  }

  lemma NotThere(m: map<seq<Byte>, seq<Byte>>, k: seq<Byte>)
    requires k !in m
    ensures m - {k} == m
  {
  }

  /** Creating a file and then removing it by the same name gives back the bitmap, hence
      all free sectors, and the files. */
  lemma CreateThenRemoveNamed(d: seq<Sector>, d1: seq<Sector>, d2: seq<Sector>, name: seq<Byte>, size: nat)
    requires CreatedAs(d, d1, name, size) && RemovedAs(d1, d2, name)
    ensures MetaOk(d) && FsInv(d2) && Bits(d2) == Bits(d) && Files(d2) == Files(d)
  {
    var i: nat, e, h :| CreatedAt(d, d1, i, e, h, Key(name), size);
    var j: nat :| RemovedAt(d1, d2, j, Key(name));
    CreatedMeta(d, d1, i, e, h);
    CreateKeeps(d, d1, i, e, h);
    hide Contents, Bits, Table, FilesOk, Apart, MarksClaimed, HeadersApart, KeysOf, Files, Updated, Key, NamesUnique;
    OnlyPlace(d1, i, Key(name));
    assert Names(Table(d1), j, Key(name));
    CreateThenRemove(d, d1, d2, i, e, h);
  }

  // ---------------------------------------------------------------- whole runs

  type FileMap = map<seq<Byte>, seq<Byte>>

  /** What a client may ask for: a create or a remove by name, which may fail, or a write
      at a position of the file with a name. */
  datatype Request =
    | CreateFile(name: seq<Byte>, size: nat)
    | RemoveFile(name: seq<Byte>)
    | WriteTo(name: seq<Byte>, position: nat, from: seq<Byte>)

  /** The files after a write to the one with key k: the bytes that lie in the file are
      spliced in. */
  function Written(m: FileMap, k: seq<Byte>, position: nat, from: seq<Byte>): FileMap {
    if k in m && Clip(|m[k]|, |from|, position) > 0
    then m[k := Splice(m[k], position, from[..Clip(|m[k]|, |from|, position)])]
    else m
  }

  ghost predicate WrittenAt(d: seq<Sector>, d': seq<Sector>, i: nat, k: seq<Byte>, bytes: seq<Byte>) {
    WroteFile(d, d', i, bytes) && KeyOf(Table(d)[i]) == k
  }

  /** d' is d after these bytes have become those of the file with key k. */
  ghost predicate WrittenAs(d: seq<Sector>, d': seq<Sector>, k: seq<Byte>, bytes: seq<Byte>) {
    exists i: nat :: WrittenAt(d, d', i, k, bytes)
  }

  /** What a request may do to the disk. */
  ghost predicate Serves(d: seq<Sector>, r: Request, d': seq<Sector>)
    requires FsInv(d)
  {
    match r
    case CreateFile(name, size) => if Room(d, name, size) then CreatedAs(d, d', name, size) else d' == d
    case RemoveFile(name) => if Key(name) in Files(d) then RemovedAs(d, d', name) else d' == d
    case WriteTo(name, position, from) =>
      var k := Key(name);
      if k in Files(d) && Clip(|Files(d)[k]|, |from|, position) > 0
      then WrittenAs(d, d', k, Written(Files(d), k, position, from)[k])
      else d' == d
  }

  /** What a request does to the map from names to contents, when there is room for what it
      creates and when there is not. */
  ghost predicate Changes(m: FileMap, r: Request, room: bool, m': FileMap) {
    match r
    case CreateFile(name, size) => if room then Added(m, m', Key(name), size) else m' == m
    case RemoveFile(name) => m' == m - {Key(name)}
    case WriteTo(name, position, from) => m' == Written(m, Key(name), position, from)
  }

  ghost predicate RoomFor(d: seq<Sector>, r: Request)
    requires FsInv(d)
  {
    r.CreateFile? && Room(d, r.name, r.size)
  }

  lemma WrittenKeeps(d: seq<Sector>, d': seq<Sector>, k: seq<Byte>, bytes: seq<Byte>)
    requires WrittenAs(d, d', k, bytes)
    ensures FsInv(d) && FsInv(d') && k in Files(d) && Files(d') == Files(d)[k := bytes]
  {
    hide Files;
    var i: nat :| WrittenAt(d, d', i, k, bytes);
    WriteKeeps(d, d', i, bytes);
    WroteNamed(d, d', i, bytes);
    hide FilesOk, Apart, MarksClaimed, HeadersApart, NamesUnique, Table, Bits, Wrote;
  }

  lemma WroteNamed(d: seq<Sector>, d': seq<Sector>, i: nat, bytes: seq<Byte>)
    requires WroteFile(d, d', i, bytes)
    ensures KeyOf(Table(d)[i]) in Files(d)
  {
    hide Table, Bits, Files, Contents, Wrote, FilesOk, Apart, MarksClaimed, HeadersApart, NamesUnique;
    FilesNamed(d, i, KeyOf(Table(d)[i]));
  }

  lemma ServedKeeps(d: seq<Sector>, r: Request, d': seq<Sector>)
    requires FsInv(d) && Serves(d, r, d')
    ensures FsInv(d') && Changes(Files(d), r, RoomFor(d, r), Files(d'))
  {
    hide FsInv, Room, Files, Created, Removed, Key, Added, WroteFile, WrittenAs;
    match r
    case CreateFile(name, size) =>
      if Room(d, name, size) {
        CreatedAdds(d, d', name, size);
      }
    case RemoveFile(name) =>
      if Key(name) in Files(d) {
        var i: nat :| RemovedAt(d, d', i, Key(name));
        RemoveKeeps(d, d', i);
      } else {
        NotThere(Files(d), Key(name));
      }
    case WriteTo(name, position, from) =>
      var k := Key(name);
      if k in Files(d) && Clip(|Files(d)[k]|, |from|, position) > 0 {
        WrittenKeeps(d, d', k, Written(Files(d), k, position, from)[k]);
      }
  }

  /** A history: the disk before each request and after the last. */
  ghost predicate History(ds: seq<seq<Sector>>, rs: seq<Request>) {
    && |ds| == |rs| + 1 && FsInv(ds[0])
    && (forall n :: 0 <= n < |rs| && FsInv(ds[n]) ==> Serves(ds[n], rs[n], ds[n + 1]))
  }

  /** At every point of every history the disk is consistent, and its files have changed
      exactly as asked: a create adds its file if and only if there was room, a remove takes
      away just the one named, and a write changes just the bytes of the file it names. */
  lemma {:induction false} AlwaysConsistent(ds: seq<seq<Sector>>, rs: seq<Request>, n: nat)
    requires History(ds, rs) && n <= |rs|
    ensures FsInv(ds[n])
    ensures n > 0 ==>
      FsInv(ds[n - 1]) && Changes(Files(ds[n - 1]), rs[n - 1], RoomFor(ds[n - 1], rs[n - 1]), Files(ds[n]))
  {
    hide FsInv, Serves, Changes, RoomFor;
    if n > 0 {
      AlwaysConsistent(ds, rs, n - 1);
      ServedKeeps(ds[n - 1], rs[n - 1], ds[n]);
    }
  }

  // ---------------------------------------------------------------- handles

  ghost predicate HandleAt(d: seq<Sector>, i: nat, k: seq<Byte>, h: Header)
    requires FsInv(d)
  {
    && Names(Table(d), i, k) && i < NUM_DIR_ENTRIES && FileOk(d, Table(d)[i])
    && h == HdrAt(d, Table(d)[i].sector)
  }

  /** The header is that of the file with key k. */
  ghost predicate HandleOf(d: seq<Sector>, k: seq<Byte>, h: Header)
    requires FsInv(d)
  {
    exists i: nat :: HandleAt(d, i, k, h)
  }

  lemma HandleCreated(d: seq<Sector>, d': seq<Sector>, i: nat, e: DirEntry, h: Header, j: nat, k: seq<Byte>, g: Header)
    requires Created(d, d', i, e, h) && FsInv(d) && HandleAt(d, j, k, g) && FsInv(d')
    ensures HandleAt(d', j, k, g)
  {
    CreatedClaims(d, d', i, e, h);
    assert j != i;
    hide Created, Contents, Bits, Table, Apart, MarksClaimed, HeadersApart, NamesUnique, Claim, FilesOk;
  }

  lemma HandleRemoved(d: seq<Sector>, d': seq<Sector>, i: nat, j: nat, k: seq<Byte>, g: Header)
    requires Removed(d, d', i) && FsInv(d) && HandleAt(d, j, k, g) && FsInv(d') && KeyOf(Table(d)[i]) != k
    ensures HandleAt(d', j, k, g)
  {
    RemovedClaims(d, d', i);
    assert j != i;
    hide Removed, Contents, Bits, Table, Apart, MarksClaimed, HeadersApart, NamesUnique, Claim, FilesOk;
  }

  lemma HandleWritten(d: seq<Sector>, d': seq<Sector>, i: nat, bytes: seq<Byte>, j: nat, k: seq<Byte>, g: Header)
    requires WroteFile(d, d', i, bytes) && FsInv(d) && HandleAt(d, j, k, g) && FsInv(d')
    ensures HandleAt(d', j, k, g)
  {
    WroteMeta(d, d', i, bytes);
    WroteHeader(d, d', i, bytes, j);
    hide WroteFile, Contents, Bits, Table, Apart, MarksClaimed, HeadersApart, NamesUnique, Claim, FilesOk;
  }

  /** A handle stays good until its file is removed. */
  lemma HandleStays(d: seq<Sector>, r: Request, d': seq<Sector>, k: seq<Byte>, h: Header)
    requires FsInv(d) && Serves(d, r, d') && HandleOf(d, k, h)
    requires r.RemoveFile? ==> Key(r.name) != k
    ensures FsInv(d') && HandleOf(d', k, h)
  {
    ServedKeeps(d, r, d');
    hide FsInv, HandleAt, Room, Files, Created, Removed, WroteFile, Key, Table, Written;
    var j: nat :| HandleAt(d, j, k, h);
    match r
    case CreateFile(name, size) =>
      if Room(d, name, size) {
        var i: nat, e, g :| CreatedAt(d, d', i, e, g, Key(name), size);
        HandleCreated(d, d', i, e, g, j, k, h);
      }
    case RemoveFile(name) =>
      if Key(name) in Files(d) {
        var i: nat :| RemovedAt(d, d', i, Key(name));
        HandleRemoved(d, d', i, j, k, h);
      }
    case WriteTo(name, position, from) =>
      if d' != d {
        var bytes := Written(Files(d), Key(name), position, from)[Key(name)];
        var i: nat :| WrittenAt(d, d', i, Key(name), bytes);
        HandleWritten(d, d', i, bytes, j, k, h);
      }
  }

  lemma {:induction false} ClearCountAll(bits: seq<bool>)
    requires forall i :: 0 <= i < |bits| ==> !bits[i]
    ensures ClearCount(bits) == |bits|
    decreases |bits|
  {
    if bits != [] {
      ClearCountAll(bits[..|bits| - 1]);
    }
  }

  // ---------------------------------------------------------------- the operations

  class FileSystem {
    const disk: SynchDisk
    const freeMapFile: OpenFile
    const directoryFile: OpenFile

    ghost predicate Valid()
      reads disk
    {
      && FsInv(disk.sectors)
      && freeMapFile.disk == disk && directoryFile.disk == disk
      && freeMapFile.hdr == MapHdr(disk.sectors) && directoryFile.hdr == DirHdr(disk.sectors)
    }

    /** `FileSystem::FileSystem` with `format` set: a consistent disk without files,
        whatever was on it. */
    constructor Format(disk: SynchDisk)
      requires disk.Valid()
      modifies disk
      ensures Valid() && this.disk == disk && Files(disk.sectors) == map[]
    {
      hide Contents, Wrote, Formatted, FormatBits, EncodeBits, EncodeDir, EncodeHeader, DecodeHeader;
      hide Table, Bits, Files, FilesOk, Apart, HeadersApart, MarksClaimed, NamesUnique, DataSet;
      var directory := new Directory();
      var freeMap, mh, dh := FormatMap();
      disk.WriteSector(FREE_MAP_SECTOR, EncodeHeader(mh));
      disk.WriteSector(DIRECTORY_SECTOR, EncodeHeader(dh));
      var mapData := disk.ReadSector(FREE_MAP_SECTOR);
      var dirData := disk.ReadSector(DIRECTORY_SECTOR);
      HeaderRoundTrip(mh);
      HeaderRoundTrip(dh);
      ghost var d0 := disk.sectors;
      var mapFile := new OpenFile(disk, DecodeHeader(mapData));
      var dirFile := new OpenFile(disk, DecodeHeader(dirData));
      WriteMap(freeMap, mapFile);
      ghost var d1 := disk.sectors;
      directory.WriteBack(dirFile);
      FormatWrites(d0, d1, disk.sectors, mh, dh, directory.table);
      FormatMeta(disk.sectors, mh, dh);
      FormatKeeps(disk.sectors, mh, dh);
      this.disk, freeMapFile, directoryFile := disk, mapFile, dirFile;
    }

    /** A copy of the directory. */
    method FetchDirectory() returns (directory: Directory)
      requires Valid()
      ensures fresh(directory) && directory.table == Table(disk.sectors)
      ensures AllPadded(directory.table)
    {
      NamesPadded();
      hide Contents, FilesOk, Apart, MarksClaimed, HeadersApart, NamesUnique;
      directory := new Directory();
      directory.FetchFrom(directoryFile);
    }

    /** A copy of the bitmap. */
    method FetchFreeMap() returns (freeMap: BitMap)
      requires Valid()
      ensures fresh(freeMap) && fresh(freeMap.words) && freeMap.Valid() && freeMap.numBits == NUM_SECTORS
      ensures freeMap.Bits() == Bits(disk.sectors)
    {
      hide Contents, FilesOk, Apart, MarksClaimed, HeadersApart, NamesUnique;
      freeMap := new BitMap(NUM_SECTORS);
      FetchMap(freeMap, freeMapFile);
    }

    /** Looks the name up and finds a sector for the header, as `FileSystem::Create` begins. */
    method Reserve(name: seq<Byte>) returns (ok: bool, sector: nat, directory: Directory, freeMap: BitMap)
      requires Valid() && NoNul(name)
      ensures fresh(directory) && fresh(freeMap) && fresh(freeMap.words)
      ensures directory.table == Table(disk.sectors) && AllPadded(directory.table)
      ensures freeMap.Valid() && freeMap.numBits == NUM_SECTORS
      ensures ok <==> Key(name) !in KeysOf(Table(disk.sectors)) && ClearCount(Bits(disk.sectors)) > 0
      ensures ok ==> sector < NUM_SECTORS && !Bits(disk.sectors)[sector] && freeMap.Bits() == Bits(disk.sectors)[sector := true]
    {
      hide Contents, Bits, Table, FilesOk, Apart, MarksClaimed, HeadersApart, NamesUnique, KeysOf;
      hide ClearCount, Key, AllPadded, BitMap.Bits, BitMap.Valid;
      ClearCountFound(Bits(disk.sectors));
      directory := FetchDirectory();
      freeMap := FetchFreeMap();
      sector := 0;
      var found := directory.Find(name);
      if found != -1 {
        return false, sector, directory, freeMap;
      }
      var place := freeMap.Find();
      if place == -1 {
        return false, sector, directory, freeMap;
      }
      sector := place;
      ok := true;
    }

    /** The part of `FileSystem::Create` that works on the copies: the new entry in the
        directory, the header, and the bitmap with its sectors taken. */
    method Prepare(name: seq<Byte>, initialSize: nat)
      returns (ok: bool, sector: nat, h: Header, directory: Directory, freeMap: BitMap)
      requires Valid() && NoNul(name) && initialSize <= MAX_FILE_SIZE
      ensures ok <==> Room(disk.sectors, name, initialSize)
      ensures ok ==>
        && fresh(directory) && fresh(freeMap) && fresh(freeMap.words)
        && freeMap.Valid() && freeMap.numBits == NUM_SECTORS && h.numBytes == initialSize
        && Prepared(disk.sectors, name, sector, h, directory.table, freeMap.Bits())
    {
      ghost var d := disk.sectors;
      hide Contents, Bits, Table, FilesOk, Apart, MarksClaimed, HeadersApart, NamesUnique, KeysOf;
      hide ClearCount, FirstFree, Key, AllPadded, HeaderOk, HeaderFits, DataSet, NewEntry, Prepared, BitMap.Bits, BitMap.Valid;
      AffordsLeast(-1, initialSize);
      hide Affords;
      h := Header(0, 0, []);
      ok, sector, directory, freeMap := Reserve(name);
      if !ok {
        return;
      }
      ghost var bits := freeMap.Bits();
      ClearCountUpdate(Bits(d), sector);
      ok := directory.Add(name, sector);
      assert freeMap.Bits() == bits;
      if !ok {
        return;
      }
      ok, h := Allocate(freeMap, initialSize);
      if ok {
        NewIsPrepared(d, name, sector, h, directory.table, freeMap.Bits());
      }
    }

    /** `FileSystem::Create`. It succeeds exactly if the name is new on its first nine
        characters, the directory has a free entry, and there are free sectors for the
        header and the data. A create that fails leaves the disk as it was; one that
        succeeds adds a file of the size asked for, with arbitrary contents, and changes
        no other. */
    method Create(name: seq<Byte>, initialSize: nat) returns (success: bool)
      requires Valid() && NoNul(name) && initialSize <= MAX_FILE_SIZE
      modifies disk
      ensures Valid()
      ensures success <==> Room(old(disk.sectors), name, initialSize)
      ensures !success ==> disk.sectors == old(disk.sectors)
      ensures Serves(old(disk.sectors), CreateFile(name, initialSize), disk.sectors)
      ensures success ==> Added(Files(old(disk.sectors)), Files(disk.sectors), Key(name), initialSize)
    {
      hide Contents, Bits, Table, FilesOk, Apart, MarksClaimed, HeadersApart, NamesUnique, KeysOf, Files, Room;
      hide Created, Fresh, Wrote, EncodeHeader, EncodeDir, EncodeBits, DataSet, FirstFree, Key, HeaderOk;
      ghost var d := disk.sectors;
      var sector, h, directory, freeMap;
      success, sector, h, directory, freeMap := Prepare(name, initialSize);
      if success {
        ghost var i, e := FirstFree(Table(d), 0), NewEntry(Table(d), name, sector);
        FreshFits(d, i, e, h);
        disk.WriteSector(sector, EncodeHeader(h));
        ghost var d1 := disk.sectors;
        FreshElsewhere(d, d1, i, e, h);
        directory.WriteBack(directoryFile);
        ghost var d2 := disk.sectors;
        WriteMap(freeMap, freeMapFile);
        CreateWrites(d, d2, disk.sectors, i, e, h);
        assert CreatedAt(d, disk.sectors, i, e, h, Key(name), initialSize);
        CreatedMeta(d, disk.sectors, i, e, h);
        CreatedAdds(d, disk.sectors, name, initialSize);
      }
    }

    /** The part of `FileSystem::Remove` that works on the copies: the entry marked
        unused, and the sectors of the file cleared in the bitmap. */
    method Detach(name: seq<Byte>) returns (found: bool, directory: Directory, freeMap: BitMap, ghost i: nat)
      requires Valid() && NoNul(name)
      ensures found <==> Key(name) in KeysOf(Table(disk.sectors))
      ensures found ==>
        && fresh(directory) && fresh(freeMap) && fresh(freeMap.words)
        && freeMap.Valid() && freeMap.numBits == NUM_SECTORS
        && Detached(disk.sectors, i, Key(name), directory.table, freeMap.Bits())
    {
      ghost var d := disk.sectors;
      hide Contents, Bits, FilesOk, Apart, MarksClaimed, HeadersApart, NamesUnique, KeysOf, Key, AllPadded, Table;
      hide DataSet, HeaderOk, Claim, Names, DecodeHeader, BitMap.Bits, BitMap.Valid;
      ghost var t := Table(d);
      i := 0;
      directory := FetchDirectory();
      var sector := directory.Find(name);
      if sector == -1 {
        freeMap := FetchFreeMap();
        return false, directory, freeMap, i;
      }
      i :| Names(t, i, Key(name)) && sector == t[i].sector;
      FileMarked(d, i, Key(name));
      var data := disk.ReadSector(sector);
      freeMap := FreedMap(sector, DecodeHeader(data));
      ghost var bits := freeMap.Bits();
      OnlyPlace(d, i, Key(name));
      found := directory.Remove(name);
      assert freeMap.Bits() == bits;
    }

    /** `FileSystem::Remove`. It succeeds exactly if the name is there, and then takes away
        that file and frees its sectors. */
    method Remove(name: seq<Byte>) returns (removed: bool)
      requires Valid() && NoNul(name)
      modifies disk
      ensures Valid()
      ensures removed <==> Key(name) in Files(old(disk.sectors))
      ensures !removed ==> disk.sectors == old(disk.sectors)
      ensures Serves(old(disk.sectors), RemoveFile(name), disk.sectors)
      ensures Files(disk.sectors) == Files(old(disk.sectors)) - {Key(name)}
    {
      ghost var d := disk.sectors;
      FilesKeys(d);
      hide Contents, Bits, FilesOk, Apart, MarksClaimed, HeadersApart, NamesUnique, KeysOf, Files, Key, Table;
      hide Wrote, EncodeDir, EncodeBits, DataSet, HeaderOk, Removed, Claim, DecodeHeader, BitMap.Bits, BitMap.Valid;
      var directory, freeMap;
      ghost var i: nat;
      removed, directory, freeMap, i := Detach(name);
      if !removed {
        NotThere(Files(d), Key(name));
        return;
      }
      WriteMap(freeMap, freeMapFile);
      ghost var d1 := disk.sectors;
      directory.WriteBack(directoryFile);
      RemoveWrites(d, d1, disk.sectors, i);
      assert RemovedAt(d, disk.sectors, i, Key(name));
      RemovedMeta(d, disk.sectors, i);
      RemoveKeeps(d, disk.sectors, i);
    }

    /** The bitmap with the sectors of this file cleared. */
    method FreedMap(sector: nat, fileHdr: Header) returns (freeMap: BitMap)
      requires Valid() && sector < NUM_SECTORS && HeaderOk(fileHdr)
      requires forall s :: s in DataSet(fileHdr) ==> s < NUM_SECTORS && Bits(disk.sectors)[s]
      ensures fresh(freeMap) && fresh(freeMap.words) && freeMap.Valid() && freeMap.numBits == NUM_SECTORS
      ensures freeMap.Bits() == Unmarked(Bits(disk.sectors), Sectors(sector, fileHdr))
    {
      hide FilesOk, Apart, MarksClaimed, HeadersApart, NamesUnique, Contents, DataSet, HeaderOk;
      ghost var bits := Bits(disk.sectors);
      freeMap := FetchFreeMap();
      Deallocate(freeMap, fileHdr);
      freeMap.Clear(sector);
      assert freeMap.Bits() == Unmarked(bits, Sectors(sector, fileHdr));
    }

    /** Writing to a file that is in the directory, through a handle got from `Open`. */
    method WriteFile(file: OpenFile, ghost name: seq<Byte>, from: seq<Byte>, position: nat) returns (written: nat)
      requires Valid() && file.disk == disk && HandleOf(disk.sectors, Key(name), file.hdr)
      modifies disk
      ensures Valid() && HandleOf(disk.sectors, Key(name), file.hdr)
      ensures Key(name) in Files(old(disk.sectors))
      ensures written == Clip(|Files(old(disk.sectors))[Key(name)]|, |from|, position)
      ensures Serves(old(disk.sectors), WriteTo(name, position, from), disk.sectors)
      ensures Files(disk.sectors) == Written(Files(old(disk.sectors)), Key(name), position, from)
    {
      ghost var d, k := disk.sectors, Key(name);
      ghost var i: nat :| HandleAt(d, i, k, file.hdr);
      FilesNamed(d, i, k);
      hide Contents, Bits, Table, FilesOk, Apart, MarksClaimed, HeadersApart, NamesUnique, KeysOf, Files, Key, Wrote;
      written := file.WriteAt(from, position);
      if written > 0 {
        ghost var bytes := Splice(Contents(d, file.hdr), position, from[..written]);
        assert WrittenAt(d, disk.sectors, i, k, bytes);
        WroteMeta(d, disk.sectors, i, bytes);
      }
      hide WroteFile, HandleAt;
      HandleStays(d, WriteTo(name, position, from), disk.sectors, k, file.hdr);
      ServedKeeps(d, WriteTo(name, position, from), disk.sectors);
    }

    /** The name fields in use are the ones that `strncpy` wrote. */
    lemma NamesPadded()
      requires Valid()
      ensures AllPadded(Table(disk.sectors))
    {
      forall j | 0 <= j < NUM_DIR_ENTRIES && Table(disk.sectors)[j].inUse
        ensures Padded(Table(disk.sectors)[j].name)
      {
        assert FileOk(disk.sectors, Table(disk.sectors)[j]);
      }
    }

    /** `FileSystem::Open`. */
    method Open(name: seq<Byte>) returns (file: OpenFile?)
      requires Valid() && NoNul(name)
      ensures file != null <==> Key(name) in Files(disk.sectors)
      ensures file != null ==> HandleOf(disk.sectors, Key(name), file.hdr)
      ensures file != null ==>
        && file.disk == disk && file.Valid() && file.Bytes() == Files(disk.sectors)[Key(name)]
    {
      FilesKeys(disk.sectors);
      ghost var t := Table(disk.sectors);
      var directory := FetchDirectory();
      hide Contents, Bits, Table, Apart, MarksClaimed, HeadersApart, KeysOf, Files;
      var sector := directory.Find(name);
      file := null;
      if sector >= 0 {
        ghost var i: nat :| Names(t, i, Key(name)) && sector == t[i].sector;
        assert FileOk(disk.sectors, t[i]);
        FilesNamed(disk.sectors, i, Key(name));
        var data := disk.ReadSector(sector);
        file := new OpenFile(disk, DecodeHeader(data));
        assert HandleAt(disk.sectors, i, Key(name), file.hdr);
      }
    }
  }
}
