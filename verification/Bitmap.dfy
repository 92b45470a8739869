// Bitmaps packed into 32-bit words.

module Bitmaps {
  import opened FreeBits

  // ---------------------------------------------------------------- bits of a word

  function Twice(m: bv32): bv32 { m << 1 }

  function Or(w: bv32, m: bv32): bv32 { w | m }

  function AndNot(w: bv32, m: bv32): bv32 { w & !m }

  function And(w: bv32, m: bv32): bv32 { w & m }

  predicate Meets(w: bv32, m: bv32) { And(w, m) != 0 }

  /** `1 << k`. */
  function Mask(k: nat): bv32 {
    if k == 0 then 1 else Twice(Mask(k - 1))
  }

  lemma {:induction false} MaskZero(k: nat, n: nat)
    requires k <= n && Mask(k) == 0
    ensures Mask(n) == 0
    decreases n
  {
    if k < n {
      MaskZero(k, n - 1);
    }
  }

  lemma MaskNonZero(k: nat)
    requires k < 32
    ensures Mask(k) != 0
  {
    assert Mask(3) == 0x8;
    assert Mask(7) == 0x80;
    assert Mask(11) == 0x800;
    assert Mask(15) == 0x8000;
    assert Mask(19) == 0x8_0000;
    assert Mask(23) == 0x80_0000;
    assert Mask(27) == 0x800_0000;
    assert Mask(31) == 0x8000_0000;
    if Mask(k) == 0 {
      MaskZero(k, 31);
    }
  }

  lemma TwiceOdd(m: bv32)
    ensures And(Twice(m), 1) == 0 && And(1, Twice(m)) == 0
  {
  }

  lemma TwiceAnd(m: bv32, n: bv32)
    ensures And(Twice(m), Twice(n)) == Twice(And(m, n)) && Twice(0) == 0
  {
  }

  /** Different bits have disjoint masks. */
  lemma {:induction false} MasksApart(j: nat, k: nat)
    requires j < k
    ensures !Meets(Mask(j), Mask(k)) && !Meets(Mask(k), Mask(j))
    decreases j
  {
    hide Twice, And;
    if j == 0 {
      TwiceOdd(Mask(k - 1));
    } else {
      MasksApart(j - 1, k - 1);
      TwiceAnd(Mask(j - 1), Mask(k - 1));
      TwiceAnd(Mask(k - 1), Mask(j - 1));
    }
  }

  predicate BitOf(w: bv32, k: nat) {
    Meets(w, Mask(k))
  }

  lemma OrAnd(w: bv32, m: bv32, n: bv32)
    ensures And(Or(w, n), n) == n
    ensures And(m, n) == 0 ==> And(Or(w, n), m) == And(w, m)
  {
  }

  lemma AndNotAnd(w: bv32, m: bv32, n: bv32)
    ensures And(AndNot(w, n), n) == 0
    ensures And(m, n) == 0 ==> And(AndNot(w, n), m) == And(w, m)
  {
  }

  /** Setting or clearing one bit of a word does just that. */
  lemma WordUpdate(w: bv32, k: nat, j: nat)
    requires k < 32 && j < 32
    ensures BitOf(Or(w, Mask(k)), j) <==> j == k || BitOf(w, j)
    ensures BitOf(AndNot(w, Mask(k)), j) <==> j != k && BitOf(w, j)
  {
    hide Mask, Or, AndNot, And;
    OrAnd(w, Mask(j), Mask(k));
    AndNotAnd(w, Mask(j), Mask(k));
    if j == k {
      MaskNonZero(k);
    } else if j < k {
      MasksApart(j, k);
    } else {
      MasksApart(k, j);
    }
  }

  // ---------------------------------------------------------------- the class

  class BitMap {
    const numBits: nat
    const words: array<bv32>

    ghost predicate Valid()
    {
      words.Length == (numBits + 31) / 32
    }

    ghost function Bits(): (r: seq<bool>)
      requires Valid()
      reads words
      ensures |r| == numBits
    {
      seq(numBits, i requires 0 <= i < numBits reads words requires Valid() => BitOf(words[i / 32], i % 32))
    }

    constructor (nitems: nat)
      ensures Valid() && fresh(words) && numBits == nitems
      ensures forall i :: 0 <= i < nitems ==> !Bits()[i]
    {
      numBits := nitems;
      words := new bv32[(nitems + 31) / 32];
      new;
      var i := 0;
      while i < numBits
        invariant 0 <= i <= numBits && Valid()
        invariant forall j :: 0 <= j < i ==> !Bits()[j]
      {
        Clear(i);
        i := i + 1;
      }
    }

    method Mark(which: nat)
      requires Valid() && which < numBits
      modifies words
      ensures Bits() == old(Bits())[which := true]
    {
      hide BitOf, Mask, Or, AndNot;
      ghost var w := words[which / 32];
      words[which / 32] := Or(words[which / 32], Mask(which % 32));
      forall i | 0 <= i < numBits ensures Bits()[i] == old(Bits())[which := true][i] {
        WordUpdate(w, which % 32, i % 32);
      }
    }

    method Clear(which: nat)
      requires Valid() && which < numBits
      modifies words
      ensures Bits() == old(Bits())[which := false]
    {
      hide BitOf, Mask, Or, AndNot;
      ghost var w := words[which / 32];
      words[which / 32] := AndNot(words[which / 32], Mask(which % 32));
      forall i | 0 <= i < numBits ensures Bits()[i] == old(Bits())[which := false][i] {
        WordUpdate(w, which % 32, i % 32);
      }
    }

    method Test(which: nat) returns (r: bool)
      requires Valid() && which < numBits
      ensures r == Bits()[which]
    {
      hide Mask, Meets;
      r := Meets(words[which / 32], Mask(which % 32));
    }

    /** Find and mark the first clear bit. */
    method Find() returns (r: int)
      requires Valid()
      modifies words
      ensures r >= 0 <==> FirstClear(old(Bits()), 0) < numBits
      ensures r >= 0 ==> r == FirstClear(old(Bits()), 0) && Bits() == old(Bits())[r := true]
      ensures r < 0 ==> r == -1 && Bits() == old(Bits())
    {
      var i := 0;
      while i < numBits
        invariant 0 <= i <= numBits && Bits() == old(Bits())
        invariant FirstClear(Bits(), 0) == FirstClear(Bits(), i)
      {
        var t := Test(i);
        if !t {
          Mark(i);
          return i;
        }
        i := i + 1;
      }
      r := -1;
    }

    method NumClear() returns (count: nat)
      requires Valid()
      ensures count == ClearCount(Bits())
    {
      count := 0;
      var i := 0;
      while i < numBits
        invariant 0 <= i <= numBits && count == ClearCount(Bits()[..i])
      {
        var t := Test(i);
        assert Bits()[..i + 1][..i] == Bits()[..i];
        if !t {
          count := count + 1;
        }
        i := i + 1;
      }
      assert Bits()[..i] == Bits();
    }
  }
}
