// Clear bits of a bitmap: the first one, and how many.

module FreeBits {

  /** The first clear bit at or after `i`, or the length when there is none:
      where `BitMap::Find` stops. */
  function FirstClear(bits: seq<bool>, i: nat): (r: nat)
    requires i <= |bits|
    ensures i <= r <= |bits|
    ensures r < |bits| ==> !bits[r]
    ensures forall j :: i <= j < r ==> bits[j]
    decreases |bits| - i
  {
    if i == |bits| || !bits[i] then i else FirstClear(bits, i + 1)
  }

  function ClearCount(bits: seq<bool>): (n: nat)
    ensures n <= |bits|
    decreases |bits|
  {
    if bits == [] then 0
    else ClearCount(bits[..|bits| - 1]) + (if bits[|bits| - 1] then 0 else 1)
  }

  lemma {:induction false} ClearCountUpdate(bits: seq<bool>, i: nat)
    requires i < |bits| && !bits[i]
    ensures ClearCount(bits[i := true]) == ClearCount(bits) - 1
    decreases |bits|
  {
    var n := |bits| - 1;
    if i < n {
      ClearCountUpdate(bits[..n], i);
      assert bits[i := true][..n] == bits[..n][i := true];
    } else {
      assert bits[i := true][..n] == bits[..n];
    }
  }

  lemma {:induction false} ClearCountPositive(bits: seq<bool>)
    ensures ClearCount(bits) > 0 <==> exists i :: 0 <= i < |bits| && !bits[i]
    decreases |bits|
  {
    if bits != [] {
      var n := |bits| - 1;
      ClearCountPositive(bits[..n]);
      if !bits[n] {
        assert 0 <= n < |bits|;
      } else if exists i :: 0 <= i < |bits| && !bits[i] {
        var i :| 0 <= i < |bits| && !bits[i];
        assert !bits[..n][i];
      }
    }
  }

  /** There is a clear bit to find if and only if there are clear bits to count. */
  lemma ClearCountFound(bits: seq<bool>)
    ensures ClearCount(bits) > 0 <==> FirstClear(bits, 0) < |bits|
  {
    ClearCountPositive(bits);
  }
}
