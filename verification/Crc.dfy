// The checksum of the remote debugging protocol: CRC-32 with the most significant bit
// first, by table.

module Crc {
  const POLY: bv32 := 0x04c1_1db7

  // ---------------------------------------------------------------- words

  function Xor(a: bv32, b: bv32): bv32 {
    a ^ b
  }

  function Twice(c: bv32): bv32 {
    c << 1
  }

  predicate Top(c: bv32) {
    c & 0x8000_0000 != 0
  }

  lemma XorCommutes(a: bv32, b: bv32)
    ensures Xor(a, b) == Xor(b, a)
  {
  }

  lemma XorAssociates(a: bv32, b: bv32, c: bv32)
    ensures Xor(Xor(a, b), c) == Xor(a, Xor(b, c))
  {
  }

  lemma XorCancels(a: bv32)
    ensures Xor(a, 0) == a && Xor(a, a) == 0
  {
  }

  lemma XorLaws(a: bv32, b: bv32, p: bv32)
    ensures Xor(Xor(a, p), Xor(b, p)) == Xor(a, b)
    ensures Xor(Xor(a, b), p) == Xor(Xor(a, p), b)
    ensures Xor(Xor(a, b), p) == Xor(a, Xor(b, p))
  {
    XorAssociates(a, b, p);
    XorAssociates(a, p, b);
    XorCommutes(b, p);
    XorAssociates(a, p, Xor(p, b));
    XorAssociates(p, p, b);
    XorCancels(p);
    XorCancels(b);
    XorCommutes(b, 0);
    hide Xor;
  }

  lemma TwiceXor(a: bv32, b: bv32)
    ensures Twice(Xor(a, b)) == Xor(Twice(a), Twice(b))
  {
  }

  lemma TopXor(a: bv32, b: bv32)
    ensures Top(Xor(a, b)) <==> Top(a) != Top(b)
  {
  }

  // ---------------------------------------------------------------- by bits

  /** Shift by one place, modulo the polynomial. */
  function Shift(c: bv32): bv32 {
    if Top(c) then Xor(Twice(c), POLY) else Twice(c)
  }

  function Shifts(c: bv32, n: nat): bv32 {
    if n == 0 then c else Shift(Shifts(c, n - 1))
  }

  /** Take in one bit of the message. */
  function BitStep(c: bv32, b: bool): bv32 {
    if Top(c) != b then Xor(Twice(c), POLY) else Twice(c)
  }

  /** Take in some bits, the first one first. */
  function BitSteps(c: bv32, bits: seq<bool>): bv32 {
    if bits == [] then c else BitStep(BitSteps(c, bits[..|bits| - 1]), bits[|bits| - 1])
  }

  function TwiceByte(x: bv8): bv8 {
    x << 1
  }

  function ByteUp(x: bv8, k: nat): bv8 {
    if k == 0 then x else TwiceByte(ByteUp(x, k - 1))
  }

  predicate TopBit(x: bv8) {
    x & 0x80 != 0
  }

  /** Bit k of a byte, where 0 is the most significant. */
  predicate BitOf(x: bv8, k: nat) {
    TopBit(ByteUp(x, k))
  }

  function BitsOf(x: bv8): (bits: seq<bool>)
    ensures |bits| == 8
  {
    seq(8, k requires 0 <= k < 8 => BitOf(x, k))
  }

  /** All bits of the bytes, the most significant of each first. */
  function Message(buf: seq<bv8>): (bits: seq<bool>)
  {
    if buf == [] then [] else Message(buf[..|buf| - 1]) + BitsOf(buf[|buf| - 1])
  }

  /** The checksum, bit by bit. */
  function CrcBits(c: bv32, buf: seq<bv8>): bv32 {
    BitSteps(c, Message(buf))
  }

  lemma ShiftXor(a: bv32, b: bv32)
    ensures Shift(Xor(a, b)) == Xor(Shift(a), Shift(b))
  {
    TwiceXor(a, b);
    TopXor(a, b);
    XorLaws(Twice(a), Twice(b), POLY);
    hide Xor, Twice, Top;
  }

  lemma {:induction false} ShiftsXor(a: bv32, b: bv32, n: nat)
    ensures Shifts(Xor(a, b), n) == Xor(Shifts(a, n), Shifts(b, n))
  {
    hide Xor, Shift;
    if n > 0 {
      ShiftsXor(a, b, n - 1);
      ShiftXor(Shifts(a, n - 1), Shifts(b, n - 1));
    }
  }

  lemma {:induction false} BitStepsAdd(c: bv32, xs: seq<bool>, ys: seq<bool>)
    ensures BitSteps(c, xs + ys) == BitSteps(BitSteps(c, xs), ys)
    decreases |ys|
  {
    hide BitStep;
    if ys == [] {
      assert xs + ys == xs;
    } else {
      var n := |ys| - 1;
      BitStepsAdd(c, xs, ys[..n]);
      assert (xs + ys)[..|xs| + n] == xs + ys[..n];
    }
  }

  lemma {:induction false} MessageAdd(a: seq<bv8>, b: seq<bv8>)
    ensures Message(a + b) == Message(a) + Message(b)
    decreases |b|
  {
    hide BitsOf;
    if b == [] {
      assert a + b == a;
    } else {
      var n := |b| - 1;
      MessageAdd(a, b[..n]);
      assert (a + b)[..|a| + n] == a + b[..n];
      assert (a + b)[|a| + n] == b[n];
      assert Message(a + b) == Message(a + b[..n]) + BitsOf(b[n]);
    }
  }

  /** The checksum of a concatenation is the checksum of the second part, from the
      checksum of the first. */
  lemma CrcComposes(c: bv32, a: seq<bv8>, b: seq<bv8>)
    ensures CrcBits(c, a + b) == CrcBits(CrcBits(c, a), b)
  {
    MessageAdd(a, b);
    BitStepsAdd(c, Message(a), Message(b));
  }

  // ---------------------------------------------------------------- by bytes

  function High(x: bv8): bv32 {
    (x as bv32) << 24
  }

  function TopByte(c: bv32): bv8 {
    (c >> 24) as bv8
  }

  function LowBytes(c: bv32): bv32 {
    c & 0xff_ffff
  }

  function Up(c: bv32, n: nat): bv32 {
    if n == 0 then c else Twice(Up(c, n - 1))
  }

  /** What the table holds for a byte. */
  function Entry(x: bv8): bv32 {
    Shifts(High(x), 8)
  }

  lemma UpEight(c: bv32)
    ensures Up(c, 8) == c << 8
  {
    hide Twice;
    assert Up(c, 1) == Twice(c);
    assert Up(c, 2) == Twice(Twice(c));
    assert Up(c, 4) == Twice(Twice(Up(c, 2)));
    assert Up(c, 6) == Twice(Twice(Up(c, 4)));
    assert Up(c, 8) == Twice(Twice(Up(c, 6)));
    EightTimes(c);
  }

  lemma EightTimes(c: bv32)
    ensures Twice(Twice(Twice(Twice(Twice(Twice(Twice(Twice(c)))))))) == c << 8
  {
  }

  /** a and b have no bit in common. */
  predicate Disjoint(a: bv32, b: bv32) {
    a & b == 0
  }

  lemma TwiceDisjoint(a: bv32, b: bv32)
    requires Disjoint(a, b)
    ensures Disjoint(Twice(a), Twice(b))
  {
  }

  lemma DisjointTop(a: bv32, b: bv32)
    requires Disjoint(a, b) && Top(b)
    ensures !Top(a)
  {
  }

  lemma HighMask(k: nat)
    requires k < 8
    ensures Top(Up(0xff00_0000, k))
  {
    assert Up(0xff00_0000, 1) == 0xfe00_0000;
    assert Up(0xff00_0000, 2) == 0xfc00_0000;
    assert Up(0xff00_0000, 3) == 0xf800_0000;
    assert Up(0xff00_0000, 4) == 0xf000_0000;
    assert Up(0xff00_0000, 5) == 0xe000_0000;
    assert Up(0xff00_0000, 6) == 0xc000_0000;
    assert Up(0xff00_0000, 7) == 0x8000_0000;
    assert k == 0 || k == 1 || k == 2 || k == 3 || k == 4 || k == 5 || k == 6 || k == 7;
  }

  lemma LowDisjoint(c: bv32)
    ensures Disjoint(LowBytes(c), 0xff00_0000) && LowBytes(c) << 8 == c << 8
  {
  }

  /** The low bytes are only moved. */
  lemma {:induction false} LowShifts(c: bv32, n: nat)
    requires n <= 8
    ensures Shifts(LowBytes(c), n) == Up(LowBytes(c), n)
    ensures Disjoint(Up(LowBytes(c), n), Up(0xff00_0000, n))
  {
    LowDisjoint(c);
    hide Twice, LowBytes, Xor, Top, Disjoint;
    if n > 0 {
      LowShifts(c, n - 1);
      HighMask(n - 1);
      DisjointTop(Up(LowBytes(c), n - 1), Up(0xff00_0000, n - 1));
      TwiceDisjoint(Up(LowBytes(c), n - 1), Up(0xff00_0000, n - 1));
    }
  }

  lemma LowByEight(c: bv32)
    ensures Shifts(LowBytes(c), 8) == c << 8
  {
    hide *;
    calc {
      Shifts(LowBytes(c), 8);
    == { LowShifts(c, 8); }
      Up(LowBytes(c), 8);
    == { UpEight(LowBytes(c)); }
      LowBytes(c) << 8;
    == { LowDisjoint(c); }
      c << 8;
    }
  }

  lemma SplitTop(c: bv32)
    ensures c == Xor(High(TopByte(c)), LowBytes(c))
  {
  }

  /** Shifting by a byte is one look in the table. */
  lemma ByteByTable(c: bv32)
    ensures Shifts(c, 8) == Xor(Entry(TopByte(c)), c << 8)
  {
    SplitTop(c);
    LowByEight(c);
    ShiftsXor(High(TopByte(c)), LowBytes(c), 8);
    hide Xor, High, TopByte, LowBytes, Shifts;
  }

  lemma TwiceHigh(x: bv8)
    ensures Twice(High(x)) == High(TwiceByte(x)) && (Top(High(x)) <==> TopBit(x))
  {
  }

  lemma {:induction false} HighUpAt(x: bv8, k: nat)
    ensures Up(High(x), k) == High(ByteUp(x, k))
    ensures Top(Up(High(x), k)) <==> BitOf(x, k)
  {
    hide Twice, TwiceByte, High, Top, TopBit;
    if k > 0 {
      HighUpAt(x, k - 1);
      TwiceHigh(ByteUp(x, k - 1));
    }
    TwiceHigh(ByteUp(x, k));
  }

  lemma NothingLeft(x: bv8)
    ensures High(TwiceByte(TwiceByte(TwiceByte(TwiceByte(TwiceByte(TwiceByte(TwiceByte(TwiceByte(x))))))))) == 0
  {
  }

  lemma HighUpEight(x: bv8)
    ensures Up(High(x), 8) == 0
  {
    hide Twice, TwiceByte, High, Up;
    HighUpAt(x, 8);
    assert ByteUp(x, 1) == TwiceByte(x);
    assert ByteUp(x, 2) == TwiceByte(TwiceByte(x));
    assert ByteUp(x, 4) == TwiceByte(TwiceByte(ByteUp(x, 2)));
    assert ByteUp(x, 6) == TwiceByte(TwiceByte(ByteUp(x, 4)));
    assert ByteUp(x, 8) == TwiceByte(TwiceByte(ByteUp(x, 6)));
    NothingLeft(x);
  }

  /** Taking in a bit is shifting a register that has the bit at its top. */
  lemma BitIntoTop(r: bv32, u: bv32, b: bool)
    requires Top(u) == b
    ensures Shift(Xor(r, u)) == Xor(BitStep(r, b), Twice(u))
  {
    TopXor(r, u);
    TwiceXor(r, u);
    XorLaws(Twice(r), Twice(u), POLY);
    hide Xor, Twice, Top;
  }

  lemma NextBit(c: bv32, bits: seq<bool>, k: nat)
    requires 0 < k <= |bits|
    ensures BitSteps(c, bits[..k]) == BitStep(BitSteps(c, bits[..k - 1]), bits[k - 1])
  {
    hide BitStep;
    assert bits[..k][..k - 1] == bits[..k - 1];
  }

  lemma ShiftNext(c: bv32, u: bv32, k: nat)
    requires k > 0
    ensures Shifts(c, k) == Shift(Shifts(c, k - 1)) && Up(u, k) == Twice(Up(u, k - 1))
  {
    hide Shift, Twice;
  }

  lemma {:induction false} BitsIntoTop(c: bv32, x: bv8, k: nat)
    requires k <= 8
    ensures Shifts(Xor(c, High(x)), k) == Xor(BitSteps(c, BitsOf(x)[..k]), Up(High(x), k))
  {
    if k > 0 {
      assert BitsOf(x)[k - 1] == BitOf(x, k - 1);
      hide *;
      BitsIntoTop(c, x, k - 1);
      HighUpAt(x, k - 1);
      NextBit(c, BitsOf(x), k);
      ShiftNext(Xor(c, High(x)), High(x), k);
      BitIntoTop(BitSteps(c, BitsOf(x)[..k - 1]), Up(High(x), k - 1), BitsOf(x)[k - 1]);
    }
  }

  lemma TopParts(c: bv32, x: bv8)
    ensures TopByte(Xor(c, High(x))) == TopByte(c) ^ x && Xor(c, High(x)) << 8 == c << 8
  {
  }

  /** Taking in a byte, by table. */
  lemma ByteStep(c: bv32, x: bv8)
    ensures BitSteps(c, BitsOf(x)) == Xor(c << 8, Entry(TopByte(c) ^ x))
  {
    BitsIntoTop(c, x, 8);
    HighUpEight(x);
    assert BitsOf(x)[..8] == BitsOf(x);
    XorCancels(BitSteps(c, BitsOf(x)));
    ByteByTable(Xor(c, High(x)));
    TopParts(c, x);
    XorCommutes(c << 8, Entry(TopByte(c) ^ x));
    hide Xor, High, TopByte, Entry, Shifts, BitSteps, Up, BitOf, Top;
  }

  class GdbStub {
    const crcTable: array<bv32>

    /** The table is empty, or complete. */
    ghost predicate Valid()
      reads crcTable
    {
      crcTable.Length == 256 && (crcTable[1] != 0 ==> Complete(crcTable[..]))
    }

    constructor ()
      ensures Valid() && fresh(crcTable)
    {
      crcTable := new bv32[256](_ => 0);
    }

    method FillTable()
      requires crcTable.Length == 256
      modifies crcTable
      ensures Complete(crcTable[..])
    {
      hide High, Shift;
      var i := 0;
      while i < 256
        invariant 0 <= i <= 256
        invariant forall k :: 0 <= k < i ==> crcTable[k] == Entry(k as bv8)
      {
        var c, j := High(i as bv8), 8;
        while j > 0
          invariant 0 <= j <= 8 && c == Shifts(High(i as bv8), 8 - j)
        {
          c := Shift(c);
          j := j - 1;
        }
        crcTable[i] := c;
        i := i + 1;
      }
    }

    /** `CRC32`: the loop by table computes the checksum bit by bit. */
    method Crc32(buf: seq<bv8>, seed: bv32) returns (crc: bv32)
      requires Valid()
      modifies crcTable
      ensures Valid() && crc == CrcBits(seed, buf)
    {
      if crcTable[1] == 0 {
        FillTable();
      }
      hide Entry, TopByte, Xor, BitSteps, Message, Complete;
      crc := seed;
      var i := 0;
      NoBytes(seed, buf);
      while i < |buf|
        invariant 0 <= i <= |buf| && crc == BitSteps(seed, Message(buf[..i]))
        invariant Complete(crcTable[..])
      {
        MoreBytes(seed, buf, i, crc);
        var x := TopByte(crc) ^ buf[i];
        TableLook(crcTable[..], x);
        crc := Xor(crc << 8, crcTable[x as int]);
        i := i + 1;
      }
      assert buf[..i] == buf;
    }
  }

  lemma NoBytes(seed: bv32, buf: seq<bv8>)
    ensures BitSteps(seed, Message(buf[..0])) == seed
  {
  }

  lemma MoreBytes(seed: bv32, buf: seq<bv8>, i: nat, crc: bv32)
    requires i < |buf| && crc == BitSteps(seed, Message(buf[..i]))
    ensures BitSteps(seed, Message(buf[..i + 1])) == Xor(crc << 8, Entry(TopByte(crc) ^ buf[i]))
  {
    ByteStep(crc, buf[i]);
    BitStepsAdd(seed, Message(buf[..i]), BitsOf(buf[i]));
    assert buf[..i + 1][..i] == buf[..i];
    hide Entry, BitsOf, TopByte, Xor, BitSteps;
  }

  ghost predicate Complete(table: seq<bv32>) {
    |table| == 256 && forall k :: 0 <= k < 256 ==> table[k] == Entry(k as bv8)
  }

  lemma TableLook(table: seq<bv32>, x: bv8)
    requires Complete(table)
    ensures table[x as int] == Entry(x)
  {
    assert (x as int) as bv8 == x;
  }

  // ---------------------------------------------------------------- as a division

  /** Bring down the next bit of the dividend, and subtract the divisor if it fits: a step
      of long division by x^32 + POLY, over the integers modulo 2. */
  function DivStep(r: bv32, b: bool): bv32 {
    Xor(Shift(r), if b then 1 else 0)
  }

  /** The remainder of the bits behind r. */
  function Divide(r: bv32, bits: seq<bool>): bv32 {
    if bits == [] then r else DivStep(Divide(r, bits[..|bits| - 1]), bits[|bits| - 1])
  }

  function Zeros(n: nat): (z: seq<bool>)
    ensures |z| == n
  {
    seq(n, _ => false)
  }

  lemma BitStepIsXor(c: bv32, b: bool)
    ensures BitStep(c, b) == Xor(Shift(c), if b then POLY else 0)
  {
    XorAssociates(Twice(c), POLY, POLY);
    XorCancels(POLY);
    XorCancels(Twice(c));
    XorCancels(Shift(c));
    hide Xor, Twice, Top;
  }

  lemma {:induction false} ShiftsAdd(c: bv32, m: nat, n: nat)
    ensures Shifts(Shifts(c, m), n) == Shifts(c, m + n)
    decreases n
  {
    hide Shift;
    if n > 0 {
      ShiftsAdd(c, m, n - 1);
    }
  }

  /** x^32 is the polynomial, modulo itself. */
  lemma OneIsPoly()
    ensures Shifts(1, 32) == POLY
  {
    LowByEight(1);
    LowByEight(0x100);
    LowByEight(0x1_0000);
    assert LowBytes(1) == 1 && LowBytes(0x100) == 0x100 && LowBytes(0x1_0000) == 0x1_0000;
    LastByte();
    hide Shifts, LowBytes;
    ShiftsAdd(1, 8, 8);
    ShiftsAdd(1, 16, 8);
    ShiftsAdd(1, 24, 8);
  }

  lemma LastByte()
    ensures Shifts(0x100_0000, 8) == POLY
  {
    assert Shifts(0x100_0000, 1) == 0x200_0000;
    assert Shifts(0x100_0000, 2) == 0x400_0000;
    assert Shifts(0x100_0000, 3) == 0x800_0000;
    assert Shifts(0x100_0000, 4) == 0x1000_0000;
    assert Shifts(0x100_0000, 5) == 0x2000_0000;
    assert Shifts(0x100_0000, 6) == 0x4000_0000;
    assert Shifts(0x100_0000, 7) == 0x8000_0000;
  }

  lemma {:induction false} ZeroShifts(n: nat)
    ensures Shifts(0, n) == 0
  {
    if n > 0 {
      ZeroShifts(n - 1);
    }
  }

  lemma {:induction false} DivideZeros(r: bv32, bits: seq<bool>, n: nat)
    ensures Divide(r, bits + Zeros(n)) == Shifts(Divide(r, bits), n)
    decreases n
  {
    hide Shift, Xor;
    if n == 0 {
      assert bits + Zeros(0) == bits;
    } else {
      DivideZeros(r, bits, n - 1);
      assert (bits + Zeros(n))[..|bits| + n - 1] == bits + Zeros(n - 1);
      XorCancels(Shifts(Divide(r, bits), n));
    }
  }

  /** The checksum runs 32 places ahead of the division. */
  lemma {:induction false} Ahead(r: bv32, bits: seq<bool>)
    ensures BitSteps(Shifts(r, 32), bits) == Shifts(Divide(r, bits), 32)
    decreases |bits|
  {
    hide Xor, Shift, BitStep;
    if bits != [] {
      var q, b := Divide(r, bits[..|bits| - 1]), bits[|bits| - 1];
      Ahead(r, bits[..|bits| - 1]);
      AheadStep(q, b);
    }
  }

  lemma AheadStep(q: bv32, b: bool)
    ensures BitStep(Shifts(q, 32), b) == Shifts(DivStep(q, b), 32)
  {
    BitStepIsXor(Shifts(q, 32), b);
    ShiftsXor(Shift(q), if b then 1 else 0, 32);
    OneIsPoly();
    ZeroShifts(32);
    ShiftFirst(q, 32);
    hide Xor, Shift, Shifts, BitStep;
  }

  lemma {:induction false} ShiftFirst(q: bv32, n: nat)
    ensures Shifts(Shift(q), n) == Shift(Shifts(q, n))
  {
    hide Shift;
    if n > 0 {
      ShiftFirst(q, n - 1);
    }
  }

  /** The shift undone. */
  function Unshift(c: bv32): bv32 {
    if c & 1 != 0 then (Xor(c, POLY) >> 1) | 0x8000_0000 else c >> 1
  }

  lemma ShiftUnshift(c: bv32)
    ensures Shift(Unshift(c)) == c
  {
  }

  function Unshifts(c: bv32, n: nat): bv32
    decreases n
  {
    if n == 0 then c else Unshifts(Unshift(c), n - 1)
  }

  lemma {:induction false} ShiftsUnshifts(c: bv32, n: nat)
    ensures Shifts(Unshifts(c, n), n) == c
    decreases n
  {
    if n > 0 {
      ShiftsUnshifts(Unshift(c), n - 1);
      ShiftUnshift(c);
      hide Shift, Unshift;
    }
  }

  // A word as bits.

  function Half(r: bv32): bv32 {
    r >> 1
  }

  predicate Odd(r: bv32) {
    r & 1 != 0
  }

  /** The low n bits of a word, the most significant first. */
  function WordBits(r: bv32, n: nat): (bits: seq<bool>)
    ensures |bits| == n
    decreases n
  {
    if n == 0 then [] else WordBits(Half(r), n - 1) + [Odd(r)]
  }

  /** n ones. */
  function Ones(n: nat): bv32 {
    if n == 0 then 0 else Twice(Ones(n - 1)) | 1
  }

  predicate Within(r: bv32, m: bv32) {
    r & !m == 0
  }

  lemma HalfWithin(r: bv32, m: bv32)
    requires Within(r, Twice(m) | 1)
    ensures Within(Half(r), m)
  {
  }

  lemma WithinNothing(r: bv32)
    requires Within(r, 0)
    ensures r == 0
  {
  }

  lemma WithinAll(r: bv32)
    ensures Within(r, Ones(32))
  {
    assert Ones(8) == 0xff;
    assert Ones(16) == 0xffff;
    assert Ones(24) == 0xff_ffff;
    assert Ones(32) == 0xffff_ffff;
  }

  lemma HalfBack(r: bv32)
    ensures !Top(Half(r))
    ensures Odd(r) ==> Xor(Twice(Half(r)), 1) == r
  {
  }

  lemma HalfBackEven(r: bv32)
    ensures !Odd(r) ==> Xor(Twice(Half(r)), 0) == r
  {
  }

  /** Dividing just the bits of a word leaves the word. */
  lemma {:induction false} DivideWord(r: bv32, n: nat)
    requires Within(r, Ones(n))
    ensures Divide(0, WordBits(r, n)) == r
    decreases n
  {
    hide Within, Half, Odd, Xor, Twice, Top;
    if n == 0 {
      WithinNothing(r);
    } else {
      HalfWithin(r, Ones(n - 1));
      HalfBack(r);
      HalfBackEven(r);
      DivideWord(Half(r), n - 1);
      assert WordBits(r, n)[..n - 1] == WordBits(Half(r), n - 1);
    }
  }

  lemma {:induction false} DivideAdd(r: bv32, xs: seq<bool>, ys: seq<bool>)
    ensures Divide(r, xs + ys) == Divide(Divide(r, xs), ys)
    decreases |ys|
  {
    hide DivStep;
    if ys == [] {
      assert xs + ys == xs;
    } else {
      var n := |ys| - 1;
      DivideAdd(r, xs, ys[..n]);
      assert (xs + ys)[..|xs| + n] == xs + ys[..n];
    }
  }

  /** The 32 bits that a seed stands for. */
  function SeedBits(seed: bv32): (bits: seq<bool>)
    ensures |bits| == 32
  {
    WordBits(Unshifts(seed, 32), 32)
  }

  /** The checksum is the remainder of the message by the polynomial, with 32 zeros behind
      it, and with the 32 bits that the seed stands for in front of it. With the seed 0
      nothing is in front. */
  lemma CrcIsRemainder(seed: bv32, buf: seq<bv8>)
    ensures CrcBits(seed, buf) == Divide(0, SeedBits(seed) + (Message(buf) + Zeros(32)))
    ensures CrcBits(0, buf) == Divide(0, Message(buf) + Zeros(32))
  {
    hide Shift, Unshift, Divide, BitSteps, Message, WordBits;
    var r := Unshifts(seed, 32);
    ShiftsUnshifts(seed, 32);
    Ahead(r, Message(buf));
    DivideZeros(r, Message(buf), 32);
    WithinAll(r);
    DivideWord(r, 32);
    DivideAdd(0, SeedBits(seed), Message(buf) + Zeros(32));
    ZeroShifts(32);
    Ahead(0, Message(buf));
    DivideZeros(0, Message(buf), 32);
  }
}
