// What is on a consistent disk, and what creating, removing and writing a file do to it.

module FsState {
  import opened DiskGeometry
  import opened Bytes
  import opened OpenFiles
  import opened FsFormat

  const FREE_MAP_SECTOR: nat := 0
  const DIRECTORY_SECTOR: nat := 1

  ghost function HdrAt(d: seq<Sector>, s: nat): Header
    requires DiskOk(d) && s < NUM_SECTORS
  {
    DecodeHeader(d[s])
  }

  /** The two well-known files can be read. */
  ghost predicate MetaOk(d: seq<Sector>) {
    && DiskOk(d)
    && HeaderOk(HdrAt(d, FREE_MAP_SECTOR)) && HdrAt(d, FREE_MAP_SECTOR).numBytes == FREE_MAP_FILE_SIZE
    && HeaderOk(HdrAt(d, DIRECTORY_SECTOR)) && HdrAt(d, DIRECTORY_SECTOR).numBytes == DIRECTORY_FILE_SIZE
  }

  ghost function MapHdr(d: seq<Sector>): Header
    requires MetaOk(d)
  {
    HdrAt(d, FREE_MAP_SECTOR)
  }

  ghost function DirHdr(d: seq<Sector>): Header
    requires MetaOk(d)
  {
    HdrAt(d, DIRECTORY_SECTOR)
  }

  ghost function Bits(d: seq<Sector>): (r: seq<bool>)
    requires MetaOk(d)
    ensures |r| == NUM_SECTORS
  {
    DecodeBits(Contents(d, MapHdr(d)))
  }

  ghost function Table(d: seq<Sector>): (t: seq<DirEntry>)
    requires MetaOk(d)
    ensures |t| == NUM_DIR_ENTRIES
    ensures TableFits(t)
  {
    DecodeDir(Contents(d, DirHdr(d)))
  }

  ghost predicate FileOk(d: seq<Sector>, e: DirEntry)
    requires DiskOk(d)
  {
    e.inUse ==> e.sector < NUM_SECTORS && HeaderOk(HdrAt(d, e.sector)) && Padded(e.name)
  }

  ghost predicate FilesOk(d: seq<Sector>, t: seq<DirEntry>)
    requires DiskOk(d)
  {
    forall i :: 0 <= i < |t| ==> FileOk(d, t[i])
  }

  ghost function Sectors(s: nat, h: Header): set<nat>
    requires HeaderOk(h)
  {
    {s} + DataSet(h)
  }

  /** Everything that can own sectors: the free map (0), the directory (1), and the
      directory entries (from 2 on). */
  const OWNERS: nat := NUM_DIR_ENTRIES + 2

  ghost function Claim(d: seq<Sector>, t: seq<DirEntry>, o: nat): set<nat>
    requires MetaOk(d) && |t| == NUM_DIR_ENTRIES && FilesOk(d, t) && o < OWNERS
  {
    if o == 0 then Sectors(FREE_MAP_SECTOR, MapHdr(d))
    else if o == 1 then Sectors(DIRECTORY_SECTOR, DirHdr(d))
    else if t[o - 2].inUse then Sectors(t[o - 2].sector, HdrAt(d, t[o - 2].sector))
    else {}
  }

  ghost predicate Apart(d: seq<Sector>, t: seq<DirEntry>)
    requires MetaOk(d) && |t| == NUM_DIR_ENTRIES && FilesOk(d, t)
  {
    forall o: nat, o': nat :: o < o' < OWNERS ==> Claim(d, t, o) !! Claim(d, t, o')
  }

  ghost predicate HeadersApart(d: seq<Sector>, t: seq<DirEntry>)
    requires MetaOk(d) && |t| == NUM_DIR_ENTRIES && FilesOk(d, t)
  {
    && FREE_MAP_SECTOR !in DataSet(MapHdr(d)) && DIRECTORY_SECTOR !in DataSet(DirHdr(d))
    && (forall i :: 0 <= i < |t| && t[i].inUse ==> t[i].sector !in DataSet(HdrAt(d, t[i].sector)))
  }

  ghost predicate Claimed(d: seq<Sector>, t: seq<DirEntry>, s: nat)
    requires MetaOk(d) && |t| == NUM_DIR_ENTRIES && FilesOk(d, t)
  {
    exists o: nat :: o < OWNERS && s in Claim(d, t, o)
  }

  ghost predicate MarksClaimed(d: seq<Sector>, t: seq<DirEntry>, bits: seq<bool>)
    requires MetaOk(d) && |t| == NUM_DIR_ENTRIES && FilesOk(d, t)
  {
    |bits| == NUM_SECTORS && forall s: nat :: s < NUM_SECTORS ==> (bits[s] <==> Claimed(d, t, s))
  }

  function KeyOf(e: DirEntry): seq<Byte>
    requires |e.name| == FILE_NAME_MAX_LEN + 1
  {
    e.name[..FILE_NAME_MAX_LEN]
  }

  ghost predicate NamesUnique(t: seq<DirEntry>)
    requires TableFits(t)
  {
    forall i, j :: 0 <= i < j < |t| && t[i].inUse && t[j].inUse ==> KeyOf(t[i]) != KeyOf(t[j])
  }

  /** The disk is consistent: the bitmap marks exactly the sectors of the two well-known
      files and of the files in the directory, which do not overlap; and no two files
      have the same name. */
  ghost predicate FsInv(d: seq<Sector>) {
    && MetaOk(d)
    && FilesOk(d, Table(d))
    && Apart(d, Table(d))
    && HeadersApart(d, Table(d))
    && MarksClaimed(d, Table(d), Bits(d))
    && NamesUnique(Table(d))
  }

  // ---------------------------------------------------------------- the abstract file system

  ghost function FileAt(d: seq<Sector>, i: nat): seq<Byte>
    requires MetaOk(d) && FilesOk(d, Table(d)) && i < NUM_DIR_ENTRIES && Table(d)[i].inUse
  {
    Contents(d, HdrAt(d, Table(d)[i].sector))
  }

  /** The file at this place of the directory has this name. */
  ghost predicate Names(t: seq<DirEntry>, i: nat, k: seq<Byte>)
    requires TableFits(t)
  {
    i < |t| && t[i].inUse && KeyOf(t[i]) == k
  }

  ghost function KeysOf(t: seq<DirEntry>): set<seq<Byte>>
    requires TableFits(t)
  {
    set i: nat | i < |t| && t[i].inUse :: KeyOf(t[i])
  }

  ghost function IndexOf(t: seq<DirEntry>, k: seq<Byte>): (i: nat)
    requires TableFits(t) && k in KeysOf(t)
    ensures Names(t, i, k)
  {
    var i: nat :| i < |t| && t[i].inUse && KeyOf(t[i]) == k;
    i
  }

  /** The file system as its users see it: a map from names to byte sequences. */
  ghost function Files(d: seq<Sector>): map<seq<Byte>, seq<Byte>>
    requires FsInv(d)
  {
    map k | k in KeysOf(Table(d)) :: FileAt(d, IndexOf(Table(d), k))
  }

  lemma FilesKeys(d: seq<Sector>)
    requires FsInv(d)
    ensures Files(d).Keys == KeysOf(Table(d))
  {
  }

  lemma FilesNamed(d: seq<Sector>, i: nat, k: seq<Byte>)
    requires FsInv(d) && Names(Table(d), i, k)
    ensures k in Files(d) && Files(d)[k] == FileAt(d, i)
  {
    hide Table, FileAt, FilesOk, Apart, HeadersApart, MarksClaimed;
    var t := Table(d);
    assert k in KeysOf(t);
    assert Names(t, IndexOf(t, k), k);
  }

  // ---------------------------------------------------------------- rewriting the metadata

  /** d' is d with a new directory and a new bitmap; the other sectors that changed
      belong to nobody. */
  ghost predicate Updated(d: seq<Sector>, d': seq<Sector>, other: set<nat>, t: seq<DirEntry>, bits: seq<bool>) {
    && FsInv(d) && DiskOk(d') && TableFits(t) && |bits| == NUM_SECTORS
    && (forall s :: s in other ==> s < NUM_SECTORS && !Bits(d)[s])
    && (forall s :: 0 <= s < NUM_SECTORS && s !in other && s !in DataSet(MapHdr(d)) && s !in DataSet(DirHdr(d)) ==> d'[s] == d[s])
    && Contents(d', MapHdr(d)) == EncodeBits(bits)
    && Contents(d', DirHdr(d)) == EncodeDir(t)
  }

  lemma NotOther(d: seq<Sector>, o: nat, s: nat)
    requires FsInv(d) && o < OWNERS && s in Claim(d, Table(d), o) && s < NUM_SECTORS
    ensures Bits(d)[s]
  {
    assert Claimed(d, Table(d), s);
  }

  lemma MarkedHas(d: seq<Sector>, s: nat)
    requires FsInv(d) && s < NUM_SECTORS && Bits(d)[s]
    ensures exists o: nat :: o < OWNERS && s in Claim(d, Table(d), o)
  {
    assert Claimed(d, Table(d), s);
  }

  lemma UpdatedMeta(d: seq<Sector>, d': seq<Sector>, other: set<nat>, t: seq<DirEntry>, bits: seq<bool>)
    requires Updated(d, d', other, t, bits)
    ensures MetaOk(d') && MapHdr(d') == MapHdr(d) && DirHdr(d') == DirHdr(d)
    ensures Table(d') == t && Bits(d') == bits
  {
    assert Claim(d, Table(d), 0) !! Claim(d, Table(d), 1);
    NotOther(d, 0, FREE_MAP_SECTOR);
    NotOther(d, 1, DIRECTORY_SECTOR);
    assert FREE_MAP_SECTOR in Claim(d, Table(d), 0) && DIRECTORY_SECTOR in Claim(d, Table(d), 1);
    hide Table, Bits, Contents, Claimed;
    assert d'[FREE_MAP_SECTOR] == d[FREE_MAP_SECTOR];
    assert d'[DIRECTORY_SECTOR] == d[DIRECTORY_SECTOR];
    BitsRoundTrip(bits);
    DirRoundTrip(t);
    UpdatedViews(d', t, bits);
  }

  lemma UpdatedViews(d: seq<Sector>, t: seq<DirEntry>, bits: seq<bool>)
    requires MetaOk(d) && TableFits(t) && |bits| == NUM_SECTORS
    requires DecodeBits(Contents(d, MapHdr(d))) == bits && DecodeDir(Contents(d, DirHdr(d))) == t
    ensures Table(d) == t && Bits(d) == bits
  {
  }

  /** The files that were there keep their headers and their contents. */
  lemma UpdatedFile(d: seq<Sector>, d': seq<Sector>, other: set<nat>, t: seq<DirEntry>, bits: seq<bool>, i: nat)
    requires Updated(d, d', other, t, bits) && i < NUM_DIR_ENTRIES && Table(d)[i].inUse
    ensures var s := Table(d)[i].sector;
      && s < NUM_SECTORS && HdrAt(d', s) == HdrAt(d, s) && HeaderOk(HdrAt(d, s))
      && Contents(d', HdrAt(d, s)) == Contents(d, HdrAt(d, s))
  {
    hide Contents, Bits, Table;
    var s := Table(d)[i].sector;
    var h := HdrAt(d, s);
    assert FileOk(d, Table(d)[i]);
    forall x | x in Sectors(s, h) ensures x < NUM_SECTORS && d'[x] == d[x] {
      assert x in Claim(d, Table(d), i + 2);
      assert Claim(d, Table(d), 0) !! Claim(d, Table(d), i + 2);
      assert Claim(d, Table(d), 1) !! Claim(d, Table(d), i + 2);
      NotOther(d, i + 2, x);
    }
    SameSectors(d, d', h);
  }

  lemma SameSectors(d: seq<Sector>, d': seq<Sector>, h: Header)
    requires DiskOk(d) && DiskOk(d') && HeaderOk(h)
    requires forall x :: x in DataSet(h) ==> x < NUM_SECTORS && d'[x] == d[x]
    ensures Contents(d', h) == Contents(d, h)
  {
    forall i | 0 <= i < h.numBytes ensures Contents(d', h)[i] == Contents(d, h)[i] {
      assert h.dataSectors[i / SECTOR_SIZE] in DataSet(h);
    }
  }

  // ---------------------------------------------------------------- create

  /** The directory entry, header sector and header that a create adds. */
  ghost predicate Fresh(d: seq<Sector>, i: nat, e: DirEntry, h: Header) {
    && FsInv(d) && i < NUM_DIR_ENTRIES && !Table(d)[i].inUse
    && e.inUse && EntryFits(e) && Padded(e.name) && e.sector < NUM_SECTORS && !Bits(d)[e.sector]
    && HeaderOk(h) && HeaderFits(h) && e.sector !in DataSet(h)
    && (forall s :: s in DataSet(h) ==> s < NUM_SECTORS && !Bits(d)[s])
    && KeyOf(e) !in KeysOf(Table(d))
  }

  ghost function MarkedToo(bits: seq<bool>, more: set<nat>): (r: seq<bool>)
    ensures |r| == |bits| && forall s :: 0 <= s < |bits| ==> (r[s] <==> bits[s] || s in more)
  {
    seq(|bits|, s requires 0 <= s < |bits| => bits[s] || s in more)
  }

  /** d' is d after the create has written the header, the directory and the bitmap. */
  ghost predicate Created(d: seq<Sector>, d': seq<Sector>, i: nat, e: DirEntry, h: Header) {
    && Fresh(d, i, e, h)
    && Updated(d, d', {e.sector}, Table(d)[i := e], MarkedToo(Bits(d), Sectors(e.sector, h)))
    && HdrAt(d', e.sector) == h
  }

  lemma CreatedMeta(d: seq<Sector>, d': seq<Sector>, i: nat, e: DirEntry, h: Header)
    requires Created(d, d', i, e, h)
    ensures MetaOk(d') && Table(d') == Table(d)[i := e]
    ensures MapHdr(d') == MapHdr(d) && DirHdr(d') == DirHdr(d)
    ensures forall s :: 0 <= s < NUM_SECTORS ==> (Bits(d')[s] <==> Bits(d)[s] || s in Sectors(e.sector, h))
  {
    hide Updated, Contents, Table, Bits, Apart, MarksClaimed, HeadersApart;
    UpdatedMeta(d, d', {e.sector}, Table(d)[i := e], MarkedToo(Bits(d), Sectors(e.sector, h)));
  }

  lemma CreatedOther(d: seq<Sector>, d': seq<Sector>, i: nat, e: DirEntry, h: Header, j: nat)
    requires Created(d, d', i, e, h) && j < NUM_DIR_ENTRIES && j != i && Table(d)[j].inUse
    ensures var s := Table(d)[j].sector;
      && s < NUM_SECTORS && HdrAt(d', s) == HdrAt(d, s) && HeaderOk(HdrAt(d, s))
      && Contents(d', HdrAt(d, s)) == Contents(d, HdrAt(d, s))
  {
    hide Updated, Contents, Table, Bits, Apart, MarksClaimed, HeadersApart;
    UpdatedFile(d, d', {e.sector}, Table(d)[i := e], MarkedToo(Bits(d), Sectors(e.sector, h)), j);
  }

  lemma CreatedClaims(d: seq<Sector>, d': seq<Sector>, i: nat, e: DirEntry, h: Header)
    requires Created(d, d', i, e, h)
    ensures MetaOk(d') && Table(d') == Table(d)[i := e] && FilesOk(d', Table(d'))
    ensures forall o: nat :: o < OWNERS ==>
      Claim(d', Table(d'), o) == if o == i + 2 then Sectors(e.sector, h) else Claim(d, Table(d), o)
    ensures forall j: nat :: j < NUM_DIR_ENTRIES && j != i && Table(d)[j].inUse ==>
      HdrAt(d', Table(d)[j].sector) == HdrAt(d, Table(d)[j].sector) && FileAt(d', j) == FileAt(d, j)
    ensures forall s :: 0 <= s < NUM_SECTORS ==> (Bits(d')[s] <==> Bits(d)[s] || s in Sectors(e.sector, h))
  {
    CreatedMeta(d, d', i, e, h);
    hide Updated, Contents, Table, Bits, Claimed, Apart, MarksClaimed, HdrAt, DataSet, HeaderOk;
    forall j: nat | j < NUM_DIR_ENTRIES && j != i && Table(d)[j].inUse
      ensures var s := Table(d)[j].sector;
        && s < NUM_SECTORS && HdrAt(d', s) == HdrAt(d, s) && HeaderOk(HdrAt(d, s))
        && Contents(d', HdrAt(d, s)) == Contents(d, HdrAt(d, s))
    {
      CreatedOther(d, d', i, e, h, j);
    }
    forall j | 0 <= j < NUM_DIR_ENTRIES ensures FileOk(d', Table(d')[j]) {
      assert FileOk(d, Table(d)[j]);
    }
  }

  lemma CreatedApart(d: seq<Sector>, d': seq<Sector>, i: nat, e: DirEntry, h: Header)
    requires Created(d, d', i, e, h) && MetaOk(d') && |Table(d')| == NUM_DIR_ENTRIES && FilesOk(d', Table(d'))
    requires forall o: nat :: o < OWNERS ==>
      Claim(d', Table(d'), o) == if o == i + 2 then Sectors(e.sector, h) else Claim(d, Table(d), o)
    ensures Apart(d', Table(d'))
  {
    hide Table, Bits, Contents, Updated, FilesOk;
    forall o: nat | o < OWNERS ensures Claim(d, Table(d), o) !! Sectors(e.sector, h) {
      forall s | s in Sectors(e.sector, h) && s in Claim(d, Table(d), o) ensures false {
        NotOther(d, o, s);
      }
    }
  }

  /** A sector's bit, if owner `n`, who claimed nothing, has got the sectors `more`. */
  lemma CreatedMark(d: seq<Sector>, d': seq<Sector>, n: nat, more: set<nat>, s: nat)
    requires FsInv(d) && MetaOk(d) && FilesOk(d, Table(d))
    requires MetaOk(d') && |Table(d')| == NUM_DIR_ENTRIES && FilesOk(d', Table(d'))
    requires n < OWNERS && s < NUM_SECTORS && Claim(d, Table(d), n) == {}
    requires forall o: nat :: o < OWNERS ==>
      Claim(d', Table(d'), o) == if o == n then more else Claim(d, Table(d), o)
    requires Bits(d')[s] <==> Bits(d)[s] || s in more
    ensures Bits(d')[s] <==> Claimed(d', Table(d'), s)
  {
    hide Table, Bits, Contents, FilesOk, FsInv, MetaOk, Claim;
    if Bits(d')[s] {
      if s in more {
        assert s in Claim(d', Table(d'), n);
      } else {
        MarkedHas(d, s);
        var o: nat :| o < OWNERS && s in Claim(d, Table(d), o);
        assert s in Claim(d', Table(d'), o);
      }
    }
    if Claimed(d', Table(d'), s) {
      var o: nat :| o < OWNERS && s in Claim(d', Table(d'), o);
      if o != n {
        NotOther(d, o, s);
      }
    }
  }

  lemma CreatedMarks(d: seq<Sector>, d': seq<Sector>, i: nat, e: DirEntry, h: Header)
    requires Created(d, d', i, e, h) && MetaOk(d') && |Table(d')| == NUM_DIR_ENTRIES && FilesOk(d', Table(d'))
    requires forall o: nat :: o < OWNERS ==>
      Claim(d', Table(d'), o) == if o == i + 2 then Sectors(e.sector, h) else Claim(d, Table(d), o)
    requires forall s :: 0 <= s < NUM_SECTORS ==> (Bits(d')[s] <==> Bits(d)[s] || s in Sectors(e.sector, h))
    ensures MarksClaimed(d', Table(d'), Bits(d'))
  {
    hide Table, Bits, Contents, Updated, FilesOk, Apart, HeadersApart, NamesUnique;
    assert Claim(d, Table(d), i + 2) == {};
    hide Claim, Claimed, FsInv;
    forall s: nat | s < NUM_SECTORS ensures Bits(d')[s] <==> Claimed(d', Table(d'), s) {
      CreatedMark(d, d', i + 2, Sectors(e.sector, h), s);
    }
  }

  /** A create keeps the disk consistent and adds just the new file. */
  lemma CreateKeeps(d: seq<Sector>, d': seq<Sector>, i: nat, e: DirEntry, h: Header)
    requires Created(d, d', i, e, h)
    ensures FsInv(d')
    ensures Files(d') == Files(d)[KeyOf(e) := Contents(d', h)]
  {
    CreatedClaims(d, d', i, e, h);
    CreatedApart(d, d', i, e, h);
    CreatedMarks(d, d', i, e, h);
    CreatedNames(d, i, e, h);
    hide Contents, Bits, Table, Claim, Apart, MarksClaimed, Updated;
    CreatedHeaders(d, d', i, e, h);
    CreatedFiles(d, d', i, e, h);
  }

  lemma CreatedHeaders(d: seq<Sector>, d': seq<Sector>, i: nat, e: DirEntry, h: Header)
    requires Created(d, d', i, e, h) && MetaOk(d') && Table(d') == Table(d)[i := e] && FilesOk(d', Table(d'))
    requires forall j: nat :: j < NUM_DIR_ENTRIES && j != i && Table(d)[j].inUse ==>
      HdrAt(d', Table(d)[j].sector) == HdrAt(d, Table(d)[j].sector)
    ensures HeadersApart(d', Table(d'))
  {
    CreatedMeta(d, d', i, e, h);
    hide Table, Bits, Contents, Updated, Apart, MarksClaimed;
  }

  lemma CreatedNames(d: seq<Sector>, i: nat, e: DirEntry, h: Header)
    requires Fresh(d, i, e, h)
    ensures TableFits(Table(d)[i := e]) && NamesUnique(Table(d)[i := e])
  {
    hide Table, Contents, Bits, Apart, MarksClaimed;
    forall j | 0 <= j < NUM_DIR_ENTRIES && j != i && Table(d)[j].inUse ensures KeyOf(Table(d)[j]) != KeyOf(e) {
      assert KeyOf(Table(d)[j]) in KeysOf(Table(d));
    }
  }

  /** The map m has the keys of the table, and the values `cs` by place. */
  ghost predicate Reads(m: map<seq<Byte>, seq<Byte>>, t: seq<DirEntry>, cs: seq<seq<Byte>>) {
    && TableFits(t) && |cs| == |t|
    && m.Keys == KeysOf(t)
    && (forall j: nat :: j < |t| && t[j].inUse ==> KeyOf(t[j]) in m && m[KeyOf(t[j])] == cs[j])
  }

  ghost function FileList(d: seq<Sector>): (cs: seq<seq<Byte>>)
    requires FsInv(d)
    ensures |cs| == NUM_DIR_ENTRIES
    ensures forall j: nat :: j < NUM_DIR_ENTRIES && Table(d)[j].inUse ==> cs[j] == FileAt(d, j)
  {
    seq(NUM_DIR_ENTRIES, j requires 0 <= j < NUM_DIR_ENTRIES => if Table(d)[j].inUse then FileAt(d, j) else [])
  }

  lemma FilesRead(d: seq<Sector>)
    requires FsInv(d)
    ensures Reads(Files(d), Table(d), FileList(d))
  {
    hide FilesOk, Apart, HeadersApart, MarksClaimed, Contents, Table, Bits, FileAt;
    var t := Table(d);
    forall j: nat | j < |t| && t[j].inUse
      ensures KeyOf(t[j]) in Files(d) && Files(d)[KeyOf(t[j])] == FileList(d)[j]
    {
      FilesNamed(d, j, KeyOf(t[j]));
    }
  }

  lemma ReadsMore(m: map<seq<Byte>, seq<Byte>>, m': map<seq<Byte>, seq<Byte>>, t: seq<DirEntry>, t': seq<DirEntry>,
                  cs: seq<seq<Byte>>, cs': seq<seq<Byte>>, i: nat, e: DirEntry)
    requires Reads(m, t, cs) && Reads(m', t', cs')
    requires i < |t| && !t[i].inUse && e.inUse && EntryFits(e) && t' == t[i := e]
    requires forall j: nat :: j < |t| && t[j].inUse ==> cs'[j] == cs[j]
    requires KeyOf(e) !in KeysOf(t)
    ensures m' == m[KeyOf(e) := cs'[i]]
  {
    forall k | k in m ensures k in m' && m'[k] == m[k] {
      var j := IndexOf(t, k);
      assert t'[j] == t[j];
    }
    forall k | k in m' ensures k == KeyOf(e) || k in m {
      var j := IndexOf(t', k);
      if j != i {
        assert t[j] == t'[j];
      }
    }
    assert t'[i] == e;
  }

  lemma CreatedFiles(d: seq<Sector>, d': seq<Sector>, i: nat, e: DirEntry, h: Header)
    requires Fresh(d, i, e, h) && FsInv(d') && Table(d') == Table(d)[i := e] && HdrAt(d', e.sector) == h
    requires forall j: nat :: j < NUM_DIR_ENTRIES && j != i && Table(d)[j].inUse ==> FileAt(d', j) == FileAt(d, j)
    ensures Files(d') == Files(d)[KeyOf(e) := Contents(d', h)]
  {
    FilesRead(d);
    FilesRead(d');
    hide FilesOk, Apart, HeadersApart, MarksClaimed, Contents, Table, Bits, Files, KeysOf, Reads, NamesUnique;
    ReadsMore(Files(d), Files(d'), Table(d), Table(d'), FileList(d), FileList(d'), i, e);
  }

  // ---------------------------------------------------------------- remove

  ghost function Unmarked(bits: seq<bool>, gone: set<nat>): (r: seq<bool>)
    ensures |r| == |bits| && forall s :: 0 <= s < |bits| ==> (r[s] <==> bits[s] && s !in gone)
  {
    seq(|bits|, s requires 0 <= s < |bits| => bits[s] && s !in gone)
  }

  /** d' is d after the remove of the file at place i has written bitmap and directory. */
  ghost predicate Removed(d: seq<Sector>, d': seq<Sector>, i: nat) {
    && FsInv(d) && i < NUM_DIR_ENTRIES && Table(d)[i].inUse
    && Updated(d, d', {}, Table(d)[i := Table(d)[i].(inUse := false)], Unmarked(Bits(d), Claim(d, Table(d), i + 2)))
  }

  lemma RemovedMeta(d: seq<Sector>, d': seq<Sector>, i: nat)
    requires Removed(d, d', i)
    ensures MetaOk(d') && Table(d') == Table(d)[i := Table(d)[i].(inUse := false)]
    ensures MapHdr(d') == MapHdr(d) && DirHdr(d') == DirHdr(d)
    ensures forall s :: 0 <= s < NUM_SECTORS ==> (Bits(d')[s] <==> Bits(d)[s] && s !in Claim(d, Table(d), i + 2))
  {
    hide Updated, Contents, Table, Bits, Apart, MarksClaimed, HeadersApart;
    UpdatedMeta(d, d', {}, Table(d)[i := Table(d)[i].(inUse := false)], Unmarked(Bits(d), Claim(d, Table(d), i + 2)));
  }

  lemma RemovedOther(d: seq<Sector>, d': seq<Sector>, i: nat, j: nat)
    requires Removed(d, d', i) && j < NUM_DIR_ENTRIES && j != i && Table(d)[j].inUse
    ensures var s := Table(d)[j].sector;
      && s < NUM_SECTORS && HdrAt(d', s) == HdrAt(d, s) && HeaderOk(HdrAt(d, s))
      && Contents(d', HdrAt(d, s)) == Contents(d, HdrAt(d, s))
  {
    hide Updated, Contents, Table, Bits, Apart, MarksClaimed, HeadersApart;
    UpdatedFile(d, d', {}, Table(d)[i := Table(d)[i].(inUse := false)], Unmarked(Bits(d), Claim(d, Table(d), i + 2)), j);
  }

  lemma RemovedClaims(d: seq<Sector>, d': seq<Sector>, i: nat)
    requires Removed(d, d', i)
    ensures MetaOk(d') && Table(d') == Table(d)[i := Table(d)[i].(inUse := false)] && FilesOk(d', Table(d'))
    ensures forall o: nat :: o < OWNERS ==>
      Claim(d', Table(d'), o) == if o == i + 2 then {} else Claim(d, Table(d), o)
    ensures forall j: nat :: j < NUM_DIR_ENTRIES && j != i && Table(d)[j].inUse ==>
      HdrAt(d', Table(d)[j].sector) == HdrAt(d, Table(d)[j].sector) && FileAt(d', j) == FileAt(d, j)
  {
    RemovedMeta(d, d', i);
    hide Updated, Contents, Table, Bits, Claimed, Apart, MarksClaimed, HdrAt, DataSet, HeaderOk;
    forall j: nat | j < NUM_DIR_ENTRIES && j != i && Table(d)[j].inUse
      ensures var s := Table(d)[j].sector;
        && s < NUM_SECTORS && HdrAt(d', s) == HdrAt(d, s) && HeaderOk(HdrAt(d, s))
        && Contents(d', HdrAt(d, s)) == Contents(d, HdrAt(d, s))
    {
      RemovedOther(d, d', i, j);
    }
    forall j | 0 <= j < NUM_DIR_ENTRIES ensures FileOk(d', Table(d')[j]) {
      assert FileOk(d, Table(d)[j]);
    }
  }

  lemma RemovedApart(d: seq<Sector>, d': seq<Sector>, i: nat)
    requires Removed(d, d', i) && MetaOk(d') && FilesOk(d', Table(d'))
    requires forall o: nat :: o < OWNERS ==>
      Claim(d', Table(d'), o) == if o == i + 2 then {} else Claim(d, Table(d), o)
    ensures Apart(d', Table(d'))
  {
    hide Table, Bits, Contents, Updated, FilesOk, MarksClaimed, HeadersApart, NamesUnique, Claim;
    forall o: nat, o': nat | o < o' < OWNERS ensures Claim(d', Table(d'), o) !! Claim(d', Table(d'), o') {
      assert Claim(d, Table(d), o) !! Claim(d, Table(d), o');
    }
  }

  lemma RemovedMarks(d: seq<Sector>, d': seq<Sector>, i: nat)
    requires Removed(d, d', i) && MetaOk(d') && FilesOk(d', Table(d'))
    requires forall o: nat :: o < OWNERS ==>
      Claim(d', Table(d'), o) == if o == i + 2 then {} else Claim(d, Table(d), o)
    ensures Apart(d', Table(d')) && MarksClaimed(d', Table(d'), Bits(d'))
  {
    RemovedMeta(d, d', i);
    RemovedApart(d, d', i);
    hide Table, Bits, Contents, Updated, FilesOk, HeadersApart, NamesUnique, Claim;
    forall s: nat | s < NUM_SECTORS ensures Bits(d')[s] <==> Claimed(d', Table(d'), s) {
      if Bits(d')[s] {
        var o: nat :| o < OWNERS && s in Claim(d, Table(d), o);
        assert s in Claim(d', Table(d'), o);
      }
      if Claimed(d', Table(d'), s) {
        var o: nat :| o < OWNERS && s in Claim(d', Table(d'), o);
        NotOther(d, o, s);
        assert if o < i + 2 then Claim(d, Table(d), o) !! Claim(d, Table(d), i + 2)
               else Claim(d, Table(d), i + 2) !! Claim(d, Table(d), o);
      }
    }
  }

  lemma RemovedHeaders(d: seq<Sector>, d': seq<Sector>, i: nat)
    requires Removed(d, d', i) && MetaOk(d') && FilesOk(d', Table(d'))
    requires forall j: nat :: j < NUM_DIR_ENTRIES && j != i && Table(d)[j].inUse ==>
      HdrAt(d', Table(d)[j].sector) == HdrAt(d, Table(d)[j].sector)
    ensures HeadersApart(d', Table(d')) && NamesUnique(Table(d'))
  {
    RemovedMeta(d, d', i);
    hide Table, Bits, Contents, Updated, Apart, MarksClaimed;
  }

  lemma ReadsLess(m: map<seq<Byte>, seq<Byte>>, m': map<seq<Byte>, seq<Byte>>, t: seq<DirEntry>, t': seq<DirEntry>,
                  cs: seq<seq<Byte>>, cs': seq<seq<Byte>>, i: nat)
    requires Reads(m, t, cs) && Reads(m', t', cs') && NamesUnique(t)
    requires i < |t| && t[i].inUse && t' == t[i := t[i].(inUse := false)]
    requires forall j: nat :: j < |t| && j != i && t[j].inUse ==> cs'[j] == cs[j]
    ensures m' == m - {KeyOf(t[i])}
  {
    forall k | k in m && k != KeyOf(t[i]) ensures k in m' && m'[k] == m[k] {
      var j := IndexOf(t, k);
      assert t'[j] == t[j];
    }
    forall k | k in m' ensures k != KeyOf(t[i]) && k in m {
      var j := IndexOf(t', k);
      assert t[j] == t'[j];
    }
  }

  /** A remove keeps the disk consistent and takes away just that file. */
  lemma RemoveKeeps(d: seq<Sector>, d': seq<Sector>, i: nat)
    requires Removed(d, d', i)
    ensures FsInv(d')
    ensures Files(d') == Files(d) - {KeyOf(Table(d)[i])}
  {
    RemovedClaims(d, d', i);
    RemovedMarks(d, d', i);
    RemovedHeaders(d, d', i);
    hide Contents, Bits, Table, Claim, Apart, MarksClaimed, Updated, HeadersApart, FilesOk, Files, KeysOf, Reads;
    FilesRead(d);
    FilesRead(d');
    ReadsLess(Files(d), Files(d'), Table(d), Table(d'), FileList(d), FileList(d'), i);
  }

  lemma BitsBack(d: seq<Sector>, d1: seq<Sector>, d2: seq<Sector>, i: nat, e: DirEntry, h: Header)
    requires Created(d, d1, i, e, h) && Removed(d1, d2, i)
    ensures MetaOk(d2) && Bits(d2) == Bits(d)
  {
    hide Contents, Bits, Table, Updated, Apart, MarksClaimed, HeadersApart;
    CreatedClaims(d, d1, i, e, h);
    RemovedMeta(d1, d2, i);
    assert Claim(d1, Table(d1), i + 2) == Sectors(e.sector, h);
    hide Claim;
    forall s | 0 <= s < NUM_SECTORS ensures Bits(d2)[s] == Bits(d)[s] {
    }
  }

  /** Creating a file and removing it again gives back the bitmap and the files. */
  lemma CreateThenRemove(d: seq<Sector>, d1: seq<Sector>, d2: seq<Sector>, i: nat, e: DirEntry, h: Header)
    requires Created(d, d1, i, e, h) && Removed(d1, d2, i)
    ensures MetaOk(d2) && Bits(d2) == Bits(d)
    ensures FsInv(d2) && Files(d2) == Files(d)
  {
    hide Contents, Bits, Table, Claim, Apart, MarksClaimed, Updated, HeadersApart, FilesOk, KeysOf, Files;
    BitsBack(d, d1, d2, i, e, h);
    CreatedMeta(d, d1, i, e, h);
    CreateKeeps(d, d1, i, e, h);
    RemoveKeeps(d1, d2, i);
    FilesKeys(d);
    assert Files(d1) - {KeyOf(e)} == Files(d);
  }

  // ---------------------------------------------------------------- write

  /** d' is d after a write to the file at place i. */
  ghost predicate WroteFile(d: seq<Sector>, d': seq<Sector>, i: nat, bytes: seq<Byte>) {
    && FsInv(d) && i < NUM_DIR_ENTRIES && Table(d)[i].inUse
    && FileOk(d, Table(d)[i]) && Wrote(d, d', HdrAt(d, Table(d)[i].sector), bytes)
  }

  lemma WroteOther(d: seq<Sector>, d': seq<Sector>, i: nat, bytes: seq<Byte>, o: nat)
    requires WroteFile(d, d', i, bytes) && o < OWNERS && o != i + 2
    ensures forall s :: s in Claim(d, Table(d), o) && s < NUM_SECTORS ==> d'[s] == d[s]
  {
    hide Contents, Table, Bits, MarksClaimed;
    assert if o < i + 2 then Claim(d, Table(d), o) !! Claim(d, Table(d), i + 2)
           else Claim(d, Table(d), i + 2) !! Claim(d, Table(d), o);
  }

  lemma WroteMeta(d: seq<Sector>, d': seq<Sector>, i: nat, bytes: seq<Byte>)
    requires WroteFile(d, d', i, bytes)
    ensures MetaOk(d') && Table(d') == Table(d) && Bits(d') == Bits(d)
    ensures MapHdr(d') == MapHdr(d) && DirHdr(d') == DirHdr(d)
  {
    WroteOther(d, d', i, bytes, 0);
    WroteOther(d, d', i, bytes, 1);
    assert FREE_MAP_SECTOR in Claim(d, Table(d), 0) && DIRECTORY_SECTOR in Claim(d, Table(d), 1);
    hide Apart, MarksClaimed, HeadersApart, FilesOk;
    SameSectors(d, d', MapHdr(d));
    SameSectors(d, d', DirHdr(d));
  }

  lemma WroteHeader(d: seq<Sector>, d': seq<Sector>, i: nat, bytes: seq<Byte>, j: nat)
    requires WroteFile(d, d', i, bytes) && j < NUM_DIR_ENTRIES && Table(d)[j].inUse
    ensures var s := Table(d)[j].sector;
      && s < NUM_SECTORS && HdrAt(d', s) == HdrAt(d, s) && HeaderOk(HdrAt(d, s))
      && Contents(d', HdrAt(d, s)) == if j == i then bytes else Contents(d, HdrAt(d, s))
  {
    assert FileOk(d, Table(d)[j]);
    var s := Table(d)[j].sector;
    if j != i {
      WroteOther(d, d', i, bytes, j + 2);
      assert Claim(d, Table(d), j + 2) == Sectors(s, HdrAt(d, s));
      SameSectors(d, d', HdrAt(d, s));
    }
  }

  /** A write through an open file keeps the disk consistent and changes just that file. */
  lemma WriteKeeps(d: seq<Sector>, d': seq<Sector>, i: nat, bytes: seq<Byte>)
    requires WroteFile(d, d', i, bytes)
    ensures FsInv(d')
    ensures Files(d') == Files(d)[KeyOf(Table(d)[i]) := bytes]
  {
    WroteMeta(d, d', i, bytes);
    hide Contents, Bits, Table, Wrote, HdrAt, HeaderOk, DataSet;
    forall j: nat | j < NUM_DIR_ENTRIES && Table(d)[j].inUse
      ensures var s := Table(d)[j].sector;
        && s < NUM_SECTORS && HdrAt(d', s) == HdrAt(d, s) && HeaderOk(HdrAt(d, s))
        && Contents(d', HdrAt(d, s)) == if j == i then bytes else Contents(d, HdrAt(d, s))
    {
      WroteHeader(d, d', i, bytes, j);
    }
    forall j | 0 <= j < NUM_DIR_ENTRIES ensures FileOk(d', Table(d)[j]) {
      assert FileOk(d, Table(d)[j]);
    }
    assert forall o: nat :: o < OWNERS ==> Claim(d', Table(d), o) == Claim(d, Table(d), o);
    assert Apart(d', Table(d));
    assert forall s: nat :: Claimed(d, Table(d), s) <==> Claimed(d', Table(d), s);
    WroteReads(d, d', i, bytes);
  }

  lemma WroteReads(d: seq<Sector>, d': seq<Sector>, i: nat, bytes: seq<Byte>)
    requires WroteFile(d, d', i, bytes) && FsInv(d') && Table(d') == Table(d)
    ensures Files(d') == Files(d)[KeyOf(Table(d)[i]) := bytes]
  {
    hide Contents, Bits, Table, Wrote, Apart, MarksClaimed, HeadersApart, FilesOk, Files, KeysOf;
    FilesRead(d);
    FilesRead(d');
    forall j: nat | j < NUM_DIR_ENTRIES && Table(d)[j].inUse
      ensures FileList(d')[j] == if j == i then bytes else FileList(d)[j]
    {
      WroteHeader(d, d', i, bytes, j);
    }
    ReadsSame(Files(d), Files(d'), Table(d), FileList(d), FileList(d'), i);
  }

  lemma ReadsSame(m: map<seq<Byte>, seq<Byte>>, m': map<seq<Byte>, seq<Byte>>, t: seq<DirEntry>,
                  cs: seq<seq<Byte>>, cs': seq<seq<Byte>>, i: nat)
    requires Reads(m, t, cs) && Reads(m', t, cs') && NamesUnique(t) && i < |t| && t[i].inUse
    requires forall j: nat :: j < |t| && j != i && t[j].inUse ==> cs'[j] == cs[j]
    ensures m' == m[KeyOf(t[i]) := cs'[i]]
  {
    forall k | k in m && k != KeyOf(t[i]) ensures k in m' && m'[k] == m[k] {
      var j := IndexOf(t, k);
    }
  }
}
