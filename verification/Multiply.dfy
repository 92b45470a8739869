// The multiply instruction of the simulated processor: a 32-step shift-and-add.
//
// Words are integers here; what the C types `int` and `unsigned int` do to them is
// written out.

module Multiply {
  import opened Arithmetic

  const W: int := 0x1_0000_0000

  predicate Int32(x: int) {
    -0x8000_0000 <= x < 0x8000_0000
  }

  /** The word x, read as unsigned. */
  function Unsigned(x: int): (u: int)
    ensures 0 <= u < W
  {
    x % W
  }

  /** The word x, read as signed. */
  function Signed(x: int): (i: int)
    ensures Int32(i) && Unsigned(i) == Unsigned(x)
  {
    if x % W < 0x8000_0000 then x % W else x % W - W
  }

  /** Two words as one number. */
  function Double(hi: int, lo: int): int {
    hi * W + lo
  }

  function Pow2(n: nat): (p: int)
    ensures p >= 1
  {
    if n == 0 then 1 else 2 * Pow2(n - 1)
  }

  lemma Pow2Values()
    ensures Pow2(32) == W
  {
    assert Pow2(8) == 256;
    assert Pow2(16) == 65536;
    assert Pow2(24) == 0x100_0000;
  }

  lemma {:induction false} Pow2Grows(m: nat, n: nat)
    requires m <= n
    ensures Pow2(m) <= Pow2(n)
    decreases n
  {
    if m < n {
      Pow2Grows(m, n - 1);
    }
  }

  /** Taking off the lowest bit. */
  lemma LowBit(a: int, m: int)
    requires m >= 1
    ensures a % (2 * m) == a % 2 + 2 * ((a / 2) % m)
  {
    var q, r := (a / 2) / m, (a / 2) % m;
    assert a / 2 == q * m + r;
    assert a == (2 * m) * q + (a % 2 + 2 * r);
    ModIs(a, 2 * m, q, a % 2 + 2 * r);
  }

  /** The product, for proofs that need not look into it. */
  ghost function Times(x: int, y: int): int {
    x * y
  }

  lemma TimesNat(x: int, y: int)
    requires 0 <= x && 0 <= y
    ensures 0 <= x * y
  {
  }

  lemma TimesGrows(x: int, y: int, u: int, v: int)
    requires 0 <= x <= u && 0 <= y <= v
    ensures 0 <= x * y <= u * v
  {
    TimesNat(x, y);
    TimesNat(u - x, y);
    TimesNat(u, v - y);
    assert u * v == x * y + (u - x) * y + u * (v - y);
  }

  // ---------------------------------------------------------------- one step

  predicate Word(x: int) {
    0 <= x < W
  }

  /** Adding the double word (bHi, bLo) to (hi, lo), with the carry. */
  method AddDouble(hi: int, lo: int, bHi: int, bLo: int) returns (hi': int, lo': int)
    requires Word(hi) && Word(lo) && Word(bHi) && Word(bLo)
    requires Double(hi, lo) + Double(bHi, bLo) < W * W
    ensures Word(hi') && Word(lo') && Double(hi', lo') == Double(hi, lo) + Double(bHi, bLo)
  {
    lo' := (lo + bLo) % W;
    hi' := hi;
    if lo' < bLo {
      hi' := (hi' + 1) % W;
    }
    hi' := (hi' + bHi) % W;
  }

  /** Doubling the double word (bHi, bLo). */
  method ShiftDouble(bHi: int, bLo: int) returns (hi: int, lo: int)
    requires Word(bHi) && Word(bLo) && 2 * Double(bHi, bLo) < W * W
    ensures Word(hi) && Word(lo) && Double(hi, lo) == 2 * Double(bHi, bLo)
  {
    hi := (2 * bHi) % W;
    if bLo >= 0x8000_0000 {
      hi := hi + 1;
    }
    lo := (2 * bLo) % W;
  }

  /** The bits of a that are still to come at step i, as a number. */
  ghost function Left(a: int, i: nat): (r: int)
    requires i <= 32
    ensures 0 <= r < Pow2(32 - i)
  {
    a % Pow2(32 - i)
  }

  /** The sum so far, and what the bits to come will add to it, is the product. */
  ghost predicate Partial(acc: int, shifted: int, a: int, i: nat, product: int)
    requires i <= 32
  {
    acc + Times(shifted, Left(a, i)) == product
  }

  lemma Step(acc: int, shifted: int, a: int, i: nat, product: int)
    requires i < 32 && Partial(acc, shifted, a, i, product) && acc >= 0 && shifted >= 0
    ensures Partial(if a % 2 == 1 then acc + shifted else acc, 2 * shifted, a / 2, i + 1, product)
    ensures a % 2 == 1 ==> acc + shifted <= product
  {
    var m := Pow2(31 - i);
    assert Pow2(32 - i) == 2 * m;
    LowBit(a, m);
    StepProduct(shifted, Left(a, i), a % 2, Left(a / 2, i + 1));
  }

  lemma StepProduct(shifted: int, left: int, bit: int, rest: int)
    requires shifted >= 0 && 0 <= bit <= 1 && rest >= 0 && left == bit + 2 * rest
    ensures Times(shifted, left) == (if bit == 1 then shifted else 0) + Times(2 * shifted, rest)
    ensures Times(2 * shifted, rest) >= 0
  {
    TimesNat(2 * shifted, rest);
    Distributes(shifted, bit, 2 * rest);
    assert shifted * (2 * rest) == (2 * shifted) * rest;
  }

  lemma Distributes(x: int, y: int, z: int)
    ensures x * (y + z) == x * y + x * z
  {
  }

  lemma LastStep(acc: int, shifted: int, i: nat, product: int)
    requires i < 32 && Partial(acc, shifted, 1, i, product)
    ensures acc + shifted == product
  {
    assert Times(shifted, 1) == shifted;
    assert Pow2(32 - i) == 2 * Pow2(31 - i);
    ModIs(1, Pow2(32 - i), 0, 1);
  }

  lemma ProductFits(x: int, y: int)
    requires Word(x) && Word(y)
    ensures 0 <= Times(x, y) < W * W
  {
    TimesGrows(x, y, W - 1, W - 1);
  }

  lemma ShiftFits(b: int, i: nat)
    requires Word(b) && i <= 31
    ensures 0 <= 2 * Times(b, Pow2(i)) < W * W && Times(b, Pow2(i + 1)) == 2 * Times(b, Pow2(i))
  {
    Pow2Values();
    Pow2Grows(i + 1, 32);
    var p := Pow2(i);
    assert Pow2(i + 1) == 2 * p;
    hide Pow2;
    TimesNat(b, p);
    TimesGrows(b, 2 * p, W - 1, W);
    assert b * (2 * p) == 2 * (b * p);
  }

  /** The main loop, on words that are taken as unsigned; `a` is shifted as a signed word,
      so a negative one ends as -1, not as 0. */
  method MultiplyLoop(a0: int, b0: int) returns (hi: int, lo: int)
    requires Int32(a0) && Int32(b0)
    ensures Word(hi) && Word(lo) && Double(hi, lo) == Times(Unsigned(a0), Unsigned(b0))
  {
    hide Pow2, Times, Unsigned;
    var a, bLo, bHi := a0, Unsigned(b0), 0;
    hi, lo := 0, 0;
    ghost var b := Unsigned(b0);
    ghost var product := Times(Unsigned(a0), b);
    ProductFits(Unsigned(a0), b);
    StartPartial(a0, b);
    var i := 0;
    while i < 32
      invariant 0 <= i <= 32 && Int32(a)
      invariant Word(hi) && Word(lo) && Word(bHi) && Word(bLo)
      invariant Double(bHi, bLo) == Times(b, Pow2(i))
      invariant Partial(Double(hi, lo), Double(bHi, bLo), a, i, product)
    {
      ghost var acc, shifted := Double(hi, lo), Double(bHi, bLo);
      ShiftFits(b, i);
      Step(acc, shifted, a, i, product);
      hide Partial;
      if a % 2 == 1 {
        hi, lo := AddDouble(hi, lo, bHi, bLo);
        if Unsigned(a) - a % 2 == 0 {
          OnlyOne(a);
          LastStep(acc, shifted, i, product);
          return;
        }
      }
      bHi, bLo := ShiftDouble(bHi, bLo);
      a := a / 2;
      i := i + 1;
    }
    EndPartial(Double(hi, lo), Double(bHi, bLo), a, product);
  }

  lemma OnlyOne(a: int)
    requires Int32(a) && a % 2 == 1 && Unsigned(a) - 1 == 0
    ensures a == 1
  {
  }

  lemma StartPartial(a: int, b: int)
    ensures Times(b, Pow2(0)) == b && Partial(0, b, a, 0, Times(Unsigned(a), b))
  {
    assert Times(Unsigned(a), b) == Times(b, Unsigned(a));
    assert Pow2(0) == 1;
    Pow2Values();
    hide Pow2;
  }

  lemma EndPartial(acc: int, shifted: int, a: int, product: int)
    requires Partial(acc, shifted, a, 32, product)
    ensures acc == product
  {
    assert Pow2(0) == 1 && Left(a, 32) == 0 && Times(shifted, 0) == 0;
  }

  /** Two's complement of a double word. */
  method Negate(hi: int, lo: int) returns (hi': int, lo': int)
    requires Word(hi) && Word(lo) && Double(hi, lo) > 0
    ensures Word(hi') && Word(lo') && Double(hi', lo') == W * W - Double(hi, lo)
  {
    hi' := W - 1 - hi;
    lo' := W - 1 - lo;
    lo' := (lo' + 1) % W;
    if lo' == 0 {
      hi' := (hi' + 1) % W;
    }
  }

  function Abs(x: int): int {
    if x < 0 then -x else x
  }

  lemma SignedProduct(a: int, b: int)
    requires Int32(a) && Int32(b) && a != 0 && b != 0
    ensures 0 < Times(Abs(a), Abs(b)) <= 0x4000_0000_0000_0000
    ensures Times(a, b) == if (a < 0) != (b < 0) then -Times(Abs(a), Abs(b)) else Times(Abs(a), Abs(b))
  {
    TimesGrows(1, 1, Abs(a), Abs(b));
    TimesGrows(Abs(a), Abs(b), 0x8000_0000, 0x8000_0000);
    SignsOut(a, b);
  }

  lemma SignsOut(a: int, b: int)
    ensures (-a) * b == -(a * b) && a * (-b) == -(a * b) && (-a) * (-b) == a * b
  {
  }

  lemma SignedResult(h: int, l: int, product: int, negative: bool)
    requires Word(h) && Word(l) && 0 < product <= 0x4000_0000_0000_0000
    requires Double(h, l) == if negative then W * W - product else product
    ensures Double(Signed(h), Unsigned(Signed(l))) == if negative then -product else product
  {
  }

  /** The sign of the result, and the words without theirs; the least word is its own
      opposite, and right as an unsigned one. */
  method MakePositive(a: int, b: int) returns (negative: bool, x: int, y: int)
    requires Int32(a) && Int32(b)
    ensures Int32(x) && Int32(y) && Unsigned(x) == Abs(a) && Unsigned(y) == Abs(b)
    ensures negative == ((a < 0) != (b < 0))
  {
    negative, x, y := false, a, b;
    if x < 0 {
      negative := !negative;
      x := Signed(-x);
    }
    if y < 0 {
      negative := !negative;
      y := Signed(-y);
    }
  }

  lemma UnsignedResult(h: int, l: int)
    requires Word(h) && Word(l)
    ensures Double(Unsigned(Signed(h)), Unsigned(Signed(l))) == Double(h, l)
  {
  }

  lemma ZeroResult(a: int, b: int)
    requires a == 0 || b == 0
    ensures Times(a, b) == 0 && Times(Unsigned(a), Unsigned(b)) == 0
    ensures Double(0, Unsigned(0)) == 0 && Double(Unsigned(0), Unsigned(0)) == 0
  {
  }

  /** `Mult`: the exact product in 64 bits, of signed and of unsigned words, for all words. */
  method Mult(a: int, b: int, signedArith: bool) returns (hi: int, lo: int)
    requires Int32(a) && Int32(b)
    ensures Int32(hi) && Int32(lo)
    ensures signedArith ==> Double(hi, Unsigned(lo)) == Times(a, b)
    ensures !signedArith ==> Double(Unsigned(hi), Unsigned(lo)) == Times(Unsigned(a), Unsigned(b))
  {
    hide Times, Signed, Unsigned, Double, Abs;
    if a == 0 || b == 0 {
      ZeroResult(a, b);
      return 0, 0;
    }
    var negative, x, y := false, a, b;
    if signedArith {
      negative, x, y := MakePositive(a, b);
      SignedProduct(a, b);
    }
    var h, l := MultiplyLoop(x, y);
    ghost var product := Double(h, l);
    if negative {
      h, l := Negate(h, l);
    }
    hi, lo := Signed(h), Signed(l);
    if signedArith {
      SignedResult(h, l, product, negative);
    } else {
      UnsignedResult(h, l);
    }
  }
}
