// How the file system's own data structures lie on the disk: integers, headers,
// directories and bitmaps as bytes, little endian.

module FsFormat {
  import opened DiskGeometry
  import opened Bytes
  import opened OpenFiles

  const NUM_DIR_ENTRIES: nat := 10
  const ENTRY_SIZE: nat := 20
  const FILE_NAME_MAX_LEN: nat := 9
  const DIRECTORY_FILE_SIZE: nat := NUM_DIR_ENTRIES * ENTRY_SIZE
  const FREE_MAP_FILE_SIZE: nat := NUM_SECTORS / 8
  const WORD_LIMIT: nat := 0x1_0000_0000

  // ---------------------------------------------------------------- integers

  function IntBytes(x: nat): (r: seq<Byte>)
    requires x < WORD_LIMIT
    ensures |r| == 4
  {
    [x % 256, x / 256 % 256, x / 65536 % 256, x / 16777216]
  }

  function BytesInt(b: seq<Byte>): (x: nat)
    requires |b| == 4
    ensures x < WORD_LIMIT
  {
    var b0: int, b1: int, b2: int, b3: int := b[0], b[1], b[2], b[3];
    b0 + 256 * b1 + 65536 * b2 + 16777216 * b3
  }

  lemma IntRoundTrip(x: nat)
    requires x < WORD_LIMIT
    ensures BytesInt(IntBytes(x)) == x
  {
    var q1 := x / 256;
    var q2 := q1 / 256;
    assert q1 == x / 256 && x == 256 * q1 + x % 256;
    assert x / 65536 == q2 && q1 == 256 * q2 + q1 % 256;
    assert x / 16777216 == q2 / 256 && q2 == 256 * (q2 / 256) + q2 % 256;
  }

  ghost predicate WordsOk(ws: seq<nat>) {
    forall k :: 0 <= k < |ws| ==> ws[k] < WORD_LIMIT
  }

  function WordsBytes(ws: seq<nat>): (r: seq<Byte>)
    requires forall k :: 0 <= k < |ws| ==> ws[k] < WORD_LIMIT
    ensures |r| == 4 * |ws|
  {
    seq(4 * |ws|, j requires 0 <= j < 4 * |ws| => IntBytes(ws[j / 4])[j % 4])
  }

  function BytesWords(b: seq<Byte>): (r: seq<nat>)
    ensures |r| == |b| / 4
  {
    seq(|b| / 4, k requires 0 <= k < |b| / 4 => BytesInt(b[4 * k..4 * k + 4]))
  }

  lemma WordsRoundTrip(ws: seq<nat>)
    requires WordsOk(ws)
    ensures BytesWords(WordsBytes(ws)) == ws
  {
    hide IntBytes, BytesInt;
    var b := WordsBytes(ws);
    forall k | 0 <= k < |ws| ensures BytesWords(b)[k] == ws[k] {
      assert b[4 * k..4 * k + 4] == IntBytes(ws[k]) by {
        forall j | 0 <= j < 4 ensures b[4 * k + j] == IntBytes(ws[k])[j] {
          assert (4 * k + j) / 4 == k && (4 * k + j) % 4 == j;
        }
      }
      IntRoundTrip(ws[k]);
    }
  }

  // ---------------------------------------------------------------- headers

  ghost predicate HeaderFits(h: Header) {
    h.numBytes < WORD_LIMIT && h.numSectors < WORD_LIMIT && |h.dataSectors| == NUM_DIRECT && WordsOk(h.dataSectors)
  }

  function EncodeHeader(h: Header): (r: Sector)
    requires h.numBytes < WORD_LIMIT && h.numSectors < WORD_LIMIT && |h.dataSectors| == NUM_DIRECT
    requires forall k :: 0 <= k < NUM_DIRECT ==> h.dataSectors[k] < WORD_LIMIT
    ensures |r| == SECTOR_SIZE
  {
    WordsBytes([h.numBytes, h.numSectors] + h.dataSectors)
  }

  function DecodeHeader(s: Sector): (h: Header)
    requires |s| == SECTOR_SIZE
    ensures |h.dataSectors| == NUM_DIRECT
  {
    var ws := BytesWords(s);
    Header(ws[0], ws[1], ws[2..])
  }

  /** A header comes back from its sector as it was written. */
  lemma HeaderRoundTrip(h: Header)
    requires HeaderFits(h)
    ensures DecodeHeader(EncodeHeader(h)) == h
  {
    var ws := [h.numBytes, h.numSectors] + h.dataSectors;
    WordsRoundTrip(ws);
    assert ws[2..] == h.dataSectors;
  }

  // ---------------------------------------------------------------- directories

  datatype DirEntry = DirEntry(inUse: bool, sector: nat, name: seq<Byte>)

  ghost predicate EntryFits(e: DirEntry) {
    e.sector < WORD_LIMIT && |e.name| == FILE_NAME_MAX_LEN + 1
  }

  function EncodeEntry(e: DirEntry): (r: seq<Byte>)
    requires e.sector < WORD_LIMIT && |e.name| == FILE_NAME_MAX_LEN + 1
    ensures |r| == ENTRY_SIZE
  {
    [if e.inUse then 1 else 0, 0, 0, 0] + IntBytes(e.sector) + e.name + [0, 0]
  }

  function DecodeEntry(b: seq<Byte>): (e: DirEntry)
    requires |b| == ENTRY_SIZE
    ensures e.sector < WORD_LIMIT && |e.name| == FILE_NAME_MAX_LEN + 1
  {
    DirEntry(b[0] != 0, BytesInt(b[4..8]), b[8..18])
  }

  lemma EntryRoundTrip(e: DirEntry)
    requires EntryFits(e)
    ensures DecodeEntry(EncodeEntry(e)) == e
  {
    hide IntBytes, BytesInt;
    IntRoundTrip(e.sector);
    var b := EncodeEntry(e);
    assert b[4..8] == IntBytes(e.sector);
    assert b[8..18] == e.name;
  }

  ghost predicate TableFits(t: seq<DirEntry>) {
    |t| == NUM_DIR_ENTRIES && forall i :: 0 <= i < |t| ==> EntryFits(t[i])
  }

  function EncodeDir(t: seq<DirEntry>): (r: seq<Byte>)
    requires |t| == NUM_DIR_ENTRIES
    requires forall i :: 0 <= i < |t| ==> t[i].sector < WORD_LIMIT && |t[i].name| == FILE_NAME_MAX_LEN + 1
    ensures |r| == DIRECTORY_FILE_SIZE
  {
    seq(DIRECTORY_FILE_SIZE, j requires 0 <= j < DIRECTORY_FILE_SIZE => EncodeEntry(t[j / ENTRY_SIZE])[j % ENTRY_SIZE])
  }

  function DecodeDir(b: seq<Byte>): (t: seq<DirEntry>)
    requires |b| == DIRECTORY_FILE_SIZE
    ensures |t| == NUM_DIR_ENTRIES
    ensures forall i :: 0 <= i < |t| ==> t[i].sector < WORD_LIMIT && |t[i].name| == FILE_NAME_MAX_LEN + 1
  {
    seq(NUM_DIR_ENTRIES, i requires 0 <= i < NUM_DIR_ENTRIES => DecodeEntry(b[i * ENTRY_SIZE..(i + 1) * ENTRY_SIZE]))
  }

  /** A directory comes back from its file as it was written. */
  lemma DirRoundTrip(t: seq<DirEntry>)
    requires TableFits(t)
    ensures DecodeDir(EncodeDir(t)) == t
  {
    hide EncodeEntry, DecodeEntry;
    var b := EncodeDir(t);
    forall i | 0 <= i < NUM_DIR_ENTRIES ensures DecodeDir(b)[i] == t[i] {
      assert b[i * ENTRY_SIZE..(i + 1) * ENTRY_SIZE] == EncodeEntry(t[i]) by {
        forall j | 0 <= j < ENTRY_SIZE ensures b[i * ENTRY_SIZE + j] == EncodeEntry(t[i])[j] {
          assert (i * ENTRY_SIZE + j) / ENTRY_SIZE == i && (i * ENTRY_SIZE + j) % ENTRY_SIZE == j;
        }
      }
      EntryRoundTrip(t[i]);
    }
  }

  // ---------------------------------------------------------------- bitmaps

  function Limit(n: nat): nat {
    if n == 0 then 1 else 2 * Limit(n - 1)
  }

  /** Bits as a number, lowest first. */
  function Pack(b: seq<bool>): (x: nat)
    ensures x < Limit(|b|)
  {
    if b == [] then 0 else (if b[0] then 1 else 0) + 2 * Pack(b[1..])
  }

  predicate NumBit(x: nat, i: nat) {
    if i == 0 then x % 2 == 1 else NumBit(x / 2, i - 1)
  }

  lemma {:induction false} PackRoundTrip(b: seq<bool>, i: nat)
    requires i < |b|
    ensures NumBit(Pack(b), i) == b[i]
    decreases i
  {
    assert Pack(b) / 2 == Pack(b[1..]);
    if i > 0 {
      PackRoundTrip(b[1..], i - 1);
    }
  }

  /** Eight bits as a byte. */
  function PackByte(b: seq<bool>): Byte
    requires |b| == 8
  {
    assert Limit(8) == 256;
    Pack(b)
  }

  function EncodeBits(bits: seq<bool>): (r: seq<Byte>)
    requires |bits| % 8 == 0
    ensures |r| == |bits| / 8
  {
    seq(|bits| / 8, k requires 0 <= k < |bits| / 8 => PackByte(bits[8 * k..8 * k + 8]))
  }

  function DecodeBits(b: seq<Byte>): (r: seq<bool>)
    ensures |r| == 8 * |b|
  {
    seq(8 * |b|, i requires 0 <= i < 8 * |b| => NumBit(b[i / 8], i % 8))
  }

  /** A bitmap comes back from its file as it was written. */
  lemma BitsRoundTrip(bits: seq<bool>)
    requires |bits| % 8 == 0
    ensures DecodeBits(EncodeBits(bits)) == bits
  {
    hide Pack, NumBit;
    forall i | 0 <= i < |bits| ensures DecodeBits(EncodeBits(bits))[i] == bits[i] {
      var k := i / 8;
      PackRoundTrip(bits[8 * k..8 * k + 8], i % 8);
    }
  }

  // ---------------------------------------------------------------- names

  /** The character at position i of a C string, the terminating NUL included. */
  function CharAt(s: seq<Byte>, i: nat): Byte {
    if i < |s| then s[i] else 0
  }

  /** What `strncpy` leaves in the first nine bytes of the name field. */
  function Key(name: seq<Byte>): (k: seq<Byte>)
    ensures |k| == FILE_NAME_MAX_LEN
  {
    seq(FILE_NAME_MAX_LEN, i requires 0 <= i < FILE_NAME_MAX_LEN => CharAt(name, i))
  }

  /** `strncmp(a, b, 9) == 0`, from character i on. */
  predicate StrnEqual(a: seq<Byte>, b: seq<Byte>, i: nat)
    requires i <= FILE_NAME_MAX_LEN
    decreases FILE_NAME_MAX_LEN - i
  {
    i == FILE_NAME_MAX_LEN ||
    (CharAt(a, i) == CharAt(b, i) && (CharAt(a, i) == 0 || StrnEqual(a, b, i + 1)))
  }

  predicate NoNul(name: seq<Byte>) {
    0 !in name
  }

  /** After a NUL there are only NULs in the nine bytes. */
  ghost predicate Padded(field: seq<Byte>) {
    forall i, j :: 0 <= i < j < FILE_NAME_MAX_LEN && CharAt(field, i) == 0 ==> CharAt(field, j) == 0
  }

  lemma KeyPadded(name: seq<Byte>)
    requires NoNul(name)
    ensures Padded(name) && Padded(Key(name))
  {
  }

  lemma {:induction false} StrnFrom(a: seq<Byte>, b: seq<Byte>, i: nat)
    requires Padded(a) && Padded(b) && i <= FILE_NAME_MAX_LEN
    ensures StrnEqual(a, b, i) <==> forall j :: i <= j < FILE_NAME_MAX_LEN ==> CharAt(a, j) == CharAt(b, j)
    decreases FILE_NAME_MAX_LEN - i
  {
    if i < FILE_NAME_MAX_LEN {
      StrnFrom(a, b, i + 1);
    }
  }

  /** Names are equal for the directory exactly if their first nine characters are. */
  lemma StrnIsKey(field: seq<Byte>, name: seq<Byte>)
    requires Padded(field) && NoNul(name) && |field| >= FILE_NAME_MAX_LEN
    ensures StrnEqual(field, name, 0) <==> field[..FILE_NAME_MAX_LEN] == Key(name)
  {
    KeyPadded(name);
    StrnFrom(field, name, 0);
    if StrnEqual(field, name, 0) {
      forall i | 0 <= i < FILE_NAME_MAX_LEN ensures field[i] == Key(name)[i] {
        assert CharAt(field, i) == CharAt(name, i);
      }
    } else {
      var j :| 0 <= j < FILE_NAME_MAX_LEN && CharAt(field, j) != CharAt(name, j);
      assert field[..FILE_NAME_MAX_LEN][j] != Key(name)[j];
    }
  }
}
