// When there is room for a new file, in terms of the files that are there.

module FsCapacity {
  import opened Sequences
  import opened DiskGeometry
  import opened Bytes
  import opened FreeBits
  import opened OpenFiles
  import opened FsFormat
  import opened FsState
  import opened FileSystems

  /** The sectors of a file: its header and its data. */
  function SectorsOf(c: seq<Byte>): nat {
    1 + SectorsFor(|c|)
  }

  /** What the bitmap and the directory take. */
  const META_SECTORS: nat := 1 + SectorsFor(FREE_MAP_FILE_SIZE) + 1 + SectorsFor(DIRECTORY_FILE_SIZE)

  ghost function Used(m: FileMap): nat
    decreases |m|
  {
    if m == map[] then 0
    else
      var k :| k in m;
      SectorsOf(m[k]) + Used(m - {k})
  }

  lemma {:induction false} UsedWithout(m: FileMap, k: seq<Byte>)
    requires k in m
    ensures Used(m) == SectorsOf(m[k]) + Used(m - {k})
    decreases |m|
  {
    var j :| j in m && Used(m) == SectorsOf(m[j]) + Used(m - {j});
    if j != k {
      UsedWithout(m - {j}, k);
      UsedWithout(m - {k}, j);
      assert m - {j} - {k} == m - {k} - {j};
    }
  }

  lemma UsedMore(m: FileMap, k: seq<Byte>, c: seq<Byte>)
    requires k !in m
    ensures Used(m[k := c]) == Used(m) + SectorsOf(c) && |m[k := c]| == |m| + 1
  {
    UsedWithout(m[k := c], k);
    assert m[k := c] - {k} == m;
  }

  // ---------------------------------------------------------------- the directory

  /** The files of the first n entries. */
  ghost function FilesTo(d: seq<Sector>, n: nat): FileMap
    requires FsInv(d) && n <= NUM_DIR_ENTRIES
  {
    if n == 0 then map[]
    else if Table(d)[n - 1].inUse then FilesTo(d, n - 1)[KeyOf(Table(d)[n - 1]) := FileAt(d, n - 1)]
    else FilesTo(d, n - 1)
  }

  /** The sectors that the first n entries claim. */
  ghost function ClaimedBy(d: seq<Sector>, n: nat): nat
    requires FsInv(d) && n <= NUM_DIR_ENTRIES
  {
    if n == 0 then 0 else ClaimedBy(d, n - 1) + |Claim(d, Table(d), n + 1)|
  }

  lemma {:induction false} FilesToKeys(d: seq<Sector>, n: nat)
    requires FsInv(d) && n <= NUM_DIR_ENTRIES
    ensures forall k :: k in FilesTo(d, n) <==> exists i: nat :: i < n && Names(Table(d), i, k)
    ensures forall i: nat :: i < n && Table(d)[i].inUse ==>
      KeyOf(Table(d)[i]) in FilesTo(d, n) && FilesTo(d, n)[KeyOf(Table(d)[i])] == FileAt(d, i)
  {
    hide FsInv, MetaOk, Table, Contents, Bits, FilesOk, FileAt;
    InvFiles(d);
    if n > 0 {
      FilesToKeys(d, n - 1);
      forall k ensures k in FilesTo(d, n) <==> exists i: nat :: i < n && Names(Table(d), i, k) {
        if k in FilesTo(d, n) && k !in FilesTo(d, n - 1) {
          assert Names(Table(d), n - 1, k);
        }
      }
    }
  }

  lemma FilesToAll(d: seq<Sector>)
    requires FsInv(d)
    ensures FilesTo(d, NUM_DIR_ENTRIES) == Files(d)
  {
    var m, m' := FilesTo(d, NUM_DIR_ENTRIES), Files(d);
    FilesToKeys(d, NUM_DIR_ENTRIES);
    FilesKeys(d);
    hide Table, Contents, Bits, FilesOk, Apart, HeadersApart, MarksClaimed, FileAt, FilesTo, Files, NamesUnique;
    forall k | k in m ensures k in m' && m'[k] == m[k] {
      var i: nat :| i < NUM_DIR_ENTRIES && Names(Table(d), i, k);
      FilesNamed(d, i, k);
    }
    forall k | k in m' ensures k in m {
      assert Names(Table(d), IndexOf(Table(d), k), k);
    }
  }

  lemma {:induction false} DataSize(xs: seq<nat>, n: nat)
    requires n <= |xs| && Distinct(xs[..n])
    ensures |Listed(xs, n)| == n
  {
    if n == 0 {
      assert Listed(xs, 0) == {};
    } else {
      assert xs[..n][..n - 1] == xs[..n - 1];
      DataSize(xs, n - 1);
      ListedMore(xs, n - 1, xs[n - 1]);
      assert xs[n - 1 := xs[n - 1]] == xs;
      forall i | 0 <= i < n - 1 ensures xs[i] != xs[n - 1] {
        assert xs[..n][i] != xs[..n][n - 1];
      }
    }
  }

  lemma SectorsSize(s: nat, h: Header)
    requires HeaderOk(h) && s !in DataSet(h)
    ensures |Sectors(s, h)| == 1 + SectorsFor(h.numBytes)
  {
    assert DataSet(h) == Listed(h.dataSectors, h.numSectors);
    DataSize(h.dataSectors, h.numSectors);
    assert Sectors(s, h) == {s} + DataSet(h);
  }

  /** Each file claims its header and its data, and nothing twice. */
  lemma ClaimSize(d: seq<Sector>, i: nat)
    requires FsInv(d) && i < NUM_DIR_ENTRIES
    ensures |Claim(d, Table(d), i + 2)| == if Table(d)[i].inUse then SectorsOf(FileAt(d, i)) else 0
  {
    hide Table, Bits, Apart, MarksClaimed, NamesUnique;
    if Table(d)[i].inUse {
      assert FileOk(d, Table(d)[i]);
      SectorsSize(Table(d)[i].sector, HdrAt(d, Table(d)[i].sector));
    }
  }

  lemma {:induction false} UsedIsClaimed(d: seq<Sector>, n: nat)
    requires FsInv(d) && n <= NUM_DIR_ENTRIES
    ensures Used(FilesTo(d, n)) == ClaimedBy(d, n)
  {
    hide Table, Bits, FilesOk, Apart, HeadersApart, MarksClaimed, NamesUnique, FileAt, Claim, Contents, SectorsFor;
    if n > 0 {
      UsedIsClaimed(d, n - 1);
      ClaimSize(d, n - 1);
      NewName(d, n - 1);
      hide Used;
      if Table(d)[n - 1].inUse {
        UsedMore(FilesTo(d, n - 1), KeyOf(Table(d)[n - 1]), FileAt(d, n - 1));
      }
    }
  }

  lemma {:induction false} FilesToCount(d: seq<Sector>, n: nat)
    requires FsInv(d) && n <= NUM_DIR_ENTRIES
    ensures |FilesTo(d, n)| <= n
    ensures |FilesTo(d, n)| == n <==> forall i: nat :: i < n ==> Table(d)[i].inUse
  {
    hide FsInv, MetaOk, Table, Bits, FilesOk, NamesUnique, FileAt, Contents, Used, SectorsOf;
    InvFiles(d);
    if n > 0 {
      FilesToCount(d, n - 1);
      NewName(d, n - 1);
      if Table(d)[n - 1].inUse {
        UsedMore(FilesTo(d, n - 1), KeyOf(Table(d)[n - 1]), FileAt(d, n - 1));
      }
    }
  }

  lemma NewName(d: seq<Sector>, i: nat)
    requires FsInv(d) && i < NUM_DIR_ENTRIES
    ensures Table(d)[i].inUse ==> KeyOf(Table(d)[i]) !in FilesTo(d, i)
  {
    FilesToKeys(d, i);
    hide Table, Contents, Bits, FilesOk, Apart, HeadersApart, MarksClaimed, FileAt, FilesTo;
  }

  // ---------------------------------------------------------------- the bitmap

  ghost function Marked(bits: seq<bool>): set<nat> {
    set s: nat | s < |bits| && bits[s]
  }

  lemma {:induction false} ClearAndMarked(bits: seq<bool>)
    ensures ClearCount(bits) + |Marked(bits)| == |bits|
    decreases |bits|
  {
    if bits == [] {
      assert Marked(bits) == {};
    } else {
      var n := |bits| - 1;
      ClearAndMarked(bits[..n]);
      assert Marked(bits) == Marked(bits[..n]) + if bits[n] then {n} else {};
    }
  }

  /** What the first n owners claim. */
  ghost function ClaimsTo(d: seq<Sector>, n: nat): set<nat>
    requires FsInv(d) && n <= OWNERS
  {
    if n == 0 then {} else ClaimsTo(d, n - 1) + Claim(d, Table(d), n - 1)
  }

  lemma {:induction false} ClaimsToHas(d: seq<Sector>, n: nat)
    requires FsInv(d) && n <= OWNERS
    ensures forall s: nat :: s in ClaimsTo(d, n) <==> exists o: nat :: o < n && s in Claim(d, Table(d), o)
  {
    hide Table, Bits, FilesOk, Apart, HeadersApart, MarksClaimed, NamesUnique, Claim;
    if n > 0 {
      ClaimsToHas(d, n - 1);
      forall s: nat | s in ClaimsTo(d, n) ensures exists o: nat :: o < n && s in Claim(d, Table(d), o) {
        if s !in Claim(d, Table(d), n - 1) {
          assert s in ClaimsTo(d, n - 1);
          var o: nat :| o < n - 1 && s in Claim(d, Table(d), o);
        }
      }
    }
  }

  lemma {:induction false} ClaimsToSize(d: seq<Sector>, n: nat)
    requires FsInv(d) && 2 <= n <= OWNERS
    ensures |ClaimsTo(d, n)| == META_SECTORS + ClaimedBy(d, n - 2)
    decreases n
  {
    hide Table, Bits, FilesOk, Apart, HeadersApart, MarksClaimed, NamesUnique, Claim, FsInv;
    InvFiles(d);
    ClaimApart(d, n - 1);
    if n > 2 {
      ClaimsToSize(d, n - 1);
    } else {
      MetaSize(d);
      assert ClaimsTo(d, 1) == ClaimsTo(d, 0) + Claim(d, Table(d), 0);
      assert ClaimsTo(d, 1) == Claim(d, Table(d), 0);
    }
  }

  lemma InvFiles(d: seq<Sector>)
    requires FsInv(d)
    ensures MetaOk(d) && TableFits(Table(d)) && FilesOk(d, Table(d)) && NamesUnique(Table(d))
  {
  }

  lemma ClaimApart(d: seq<Sector>, n: nat)
    requires FsInv(d) && n < OWNERS
    ensures ClaimsTo(d, n) !! Claim(d, Table(d), n)
  {
    ClaimsToHas(d, n);
    hide Table, Bits, FilesOk, HeadersApart, MarksClaimed, NamesUnique, Claim, ClaimsTo;
  }

  lemma MetaSize(d: seq<Sector>)
    requires FsInv(d)
    ensures |Claim(d, Table(d), 0)| + |Claim(d, Table(d), 1)| == META_SECTORS
  {
    SectorsSize(FREE_MAP_SECTOR, MapHdr(d));
    SectorsSize(DIRECTORY_SECTOR, DirHdr(d));
  }

  lemma FreeSectors(d: seq<Sector>)
    requires FsInv(d)
    ensures ClearCount(Bits(d)) == NUM_SECTORS - META_SECTORS - Used(Files(d))
  {
    ClearAndMarked(Bits(d));
    ClaimsToHas(d, OWNERS);
    assert Marked(Bits(d)) == ClaimsTo(d, OWNERS) by {
      ClaimsInRange(d);
    }
    hide Table, Bits, FilesOk, Apart, HeadersApart, MarksClaimed, NamesUnique, Marked, ClaimsTo, ClearCount, Files;
    ClaimsToSize(d, OWNERS);
    UsedIsClaimed(d, NUM_DIR_ENTRIES);
    FilesToAll(d);
  }

  lemma ClaimsInRange(d: seq<Sector>)
    requires FsInv(d)
    ensures forall o: nat, s: nat :: o < OWNERS && s in Claim(d, Table(d), o) ==> s < NUM_SECTORS
  {
    hide Table, Bits, Apart, MarksClaimed, NamesUnique;
    forall o: nat, s: nat | o < OWNERS && s in Claim(d, Table(d), o) ensures s < NUM_SECTORS {
      if o >= 2 {
        assert FileOk(d, Table(d)[o - 2]);
      }
    }
  }

  // ---------------------------------------------------------------- room for a file

  /** The name is new, there are fewer files than the directory has entries, and the
      sectors that the files leave are enough. */
  ghost predicate Fits(m: FileMap, k: seq<Byte>, size: nat) {
    && k !in m && |m| < NUM_DIR_ENTRIES
    && Affords(NUM_SECTORS - META_SECTORS - Used(m) - 1, size)
  }

  /** Whether a create succeeds depends only on the files that are there: nothing is ever
      lost, however the disk came to hold them. */
  lemma RoomIsFits(d: seq<Sector>, name: seq<Byte>, size: nat)
    requires FsInv(d)
    ensures Room(d, name, size) <==> Fits(Files(d), Key(name), size)
  {
    hide FsInv, Bits, ClearCount, Files, Table, FirstFree, KeysOf, Key, Used;
    InvMeta(d);
    FreeSectors(d);
    FreeEntry(d);
    FilesKeys(d);
  }

  lemma InvMeta(d: seq<Sector>)
    requires FsInv(d)
    ensures MetaOk(d)
  {
  }

  lemma FreeEntry(d: seq<Sector>)
    requires FsInv(d)
    ensures FirstFree(Table(d), 0) < NUM_DIR_ENTRIES <==> |Files(d)| < NUM_DIR_ENTRIES
  {
    hide Bits, FilesOk, Apart, HeadersApart, MarksClaimed, NamesUnique, Files, Table, FilesTo;
    FilesToCount(d, NUM_DIR_ENTRIES);
    FilesToAll(d);
  }

  ghost predicate FitsFor(m: FileMap, r: Request) {
    r.CreateFile? && Fits(m, Key(r.name), r.size)
  }

  /** Every history, seen from outside: each request changes the map from names to bytes
      just as it would change a table in memory of this capacity. */
  lemma HistoryRefines(ds: seq<seq<Sector>>, rs: seq<Request>, n: nat)
    requires History(ds, rs) && n < |rs|
    ensures FsInv(ds[n]) && FsInv(ds[n + 1])
    ensures Changes(Files(ds[n]), rs[n], FitsFor(Files(ds[n]), rs[n]), Files(ds[n + 1]))
  {
    hide FsInv, Changes, Serves, Fits, Room;
    AlwaysConsistent(ds, rs, n + 1);
    if rs[n].CreateFile? {
      RoomIsFits(ds[n], rs[n].name, rs[n].size);
    }
  }
}
