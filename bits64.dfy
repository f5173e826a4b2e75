/** 64-bit bitsets as the scheduler uses them: the bit operations of
    `iter_set_bits` (src/rust/catnip/src/scheduler.rs) on unbounded
    naturals, bit `i` being the coefficient of 2^i. */
module Bits64 {
  import opened Bytes

  function Pow2(n: nat): (r: nat)
    ensures r >= 1
  {
    if n == 0 then 1 else 2 * Pow2(n - 1)
  }

  lemma {:induction false} Pow2Add(a: nat, b: nat)
    ensures Pow2(a + b) == Pow2(a) * Pow2(b)
    decreases b
  {
    if b > 0 {
      Pow2Add(a, b - 1);
    }
  }

  lemma Pow2Word()
    ensures Pow2(64) == 0x1_0000_0000_0000_0000
  {
    assert Pow2(4) == 0x10;
    Pow2Add(4, 4);
    Pow2Add(8, 8);
    assert Pow2(16) == 0x1_0000;
    Pow2Add(16, 16);
    assert Pow2(32) == 0x1_0000_0000;
    Pow2Add(32, 32);
  }

  lemma {:induction false} Pow2Monotone(i: nat, j: nat)
    requires i <= j
    ensures Pow2(i) <= Pow2(j)
    decreases j
  {
    if i < j {
      Pow2Monotone(i, j - 1);
    }
  }

  /** Bit `i` of `b` is set. */
  predicate Bit(b: nat, i: nat)
  {
    if i == 0 then b % 2 == 1 else Bit(b / 2, i - 1)
  }

  /** `a & b`. */
  function And(a: nat, b: nat): nat
    decreases a
  {
    if a == 0 || b == 0 then 0
    else 2 * And(a / 2, b / 2) + (if a % 2 == 1 && b % 2 == 1 then 1 else 0)
  }

  /** `a ^ b`. */
  function Xor(a: nat, b: nat): nat
    decreases a + b
  {
    if a == 0 then b
    else if b == 0 then a
    else 2 * Xor(a / 2, b / 2) + (a + b) % 2
  }

  /** `b.wrapping_neg()` on a `u64`: the two's complement negation. */
  function WrappingNeg(b: u64): u64
  {
    if b == 0 then 0 else 0x1_0000_0000_0000_0000 - b
  }

  /** A set bit is worth at most the whole value. */
  lemma {:induction false} BitBound(b: nat, i: nat)
    requires Bit(b, i)
    ensures Pow2(i) <= b
  {
    if i > 0 {
      BitBound(b / 2, i - 1);
    }
  }

  lemma {:induction false} ZeroHasNoBits(i: nat)
    ensures !Bit(0, i)
  {
    if i > 0 {
      ZeroHasNoBits(i - 1);
    }
  }

  /** A value below 2^w has no bit at or above `w`. */
  lemma NoHighBits(b: nat, w: nat, i: nat)
    requires b < Pow2(w) && w <= i
    ensures !Bit(b, i)
  {
    if Bit(b, i) {
      BitBound(b, i);
      Pow2Monotone(w, i);
    }
  }

  /** `b.trailing_zeros()` for `b != 0`: the index of the lowest set bit. */
  function TrailingZeros(b: nat): (z: nat)
    requires b > 0
    ensures Bit(b, z) && Pow2(z) <= b
    ensures forall j :: 0 <= j < z ==> !Bit(b, j)
    decreases b
  {
    if b % 2 == 1 then 0
    else
      var z := 1 + TrailingZeros(b / 2);
      assert forall j :: 0 < j < z ==> Bit(b, j) == Bit(b / 2, j - 1);
      z
  }

  /** The bits of `Pow2(k) - 1 - x` are the complement of those of `x`
      below `k`, so the two share none. */
  lemma {:induction false} AndComplement(x: nat, k: nat)
    requires x < Pow2(k)
    ensures And(x, Pow2(k) - 1 - x) == 0
  {
    if x > 0 {
      assert k > 0;
      var c := Pow2(k) - 1 - x;
      assert c / 2 == Pow2(k - 1) - 1 - x / 2;
      AndComplement(x / 2, k - 1);
      assert (x % 2 == 1) == (c % 2 == 0);
    }
  }

  /** `b & -b` (taken modulo 2^w) keeps only the lowest set bit of `b`. */
  lemma {:induction false} LowestSetBit(b: nat, w: nat)
    requires 0 < b < Pow2(w)
    ensures And(b, Pow2(w) - b) == Pow2(TrailingZeros(b))
  {
    assert w > 0;
    var c := Pow2(w) - b;
    if b % 2 == 1 {
      assert c % 2 == 1;
      assert c / 2 == Pow2(w - 1) - 1 - b / 2;
      AndComplement(b / 2, w - 1);
    } else {
      assert c / 2 == Pow2(w - 1) - b / 2;
      LowestSetBit(b / 2, w - 1);
    }
  }

  /** Xor with a set bit clears it. */
  lemma {:induction false} XorSetBit(b: nat, z: nat)
    requires Bit(b, z)
    ensures Pow2(z) <= b && Xor(b, Pow2(z)) == b - Pow2(z)
  {
    BitBound(b, z);
    if z == 0 {
      assert b % 2 == 1;
      assert Xor(b, 1) == 2 * Xor(b / 2, 0) + (b + 1) % 2;
      assert Xor(b / 2, 0) == b / 2;
    } else {
      var h := Pow2(z - 1);
      assert Pow2(z) == 2 * h;
      XorSetBit(b / 2, z - 1);
      assert Xor(b, 2 * h) == 2 * Xor(b / 2, h) + (b + 2 * h) % 2;
      assert (b + 2 * h) % 2 == b % 2;
    }
  }

  /** Clearing bit `z` leaves every other bit as it was. */
  lemma {:induction false} ClearBitAt(b: nat, z: nat, i: nat)
    requires Bit(b, z)
    ensures Pow2(z) <= b && Bit(b - Pow2(z), i) == (Bit(b, i) && i != z)
  {
    BitBound(b, z);
    if z > 0 {
      assert (b - Pow2(z)) / 2 == b / 2 - Pow2(z - 1);
      if i > 0 {
        ClearBitAt(b / 2, z - 1, i - 1);
      }
    } else if i > 0 {
      assert (b - 1) / 2 == b / 2;
    }
  }

  /** Setting a clear bit `z` leaves every other bit as it was. */
  lemma {:induction false} SetBitAt(b: nat, z: nat, i: nat)
    requires !Bit(b, z)
    ensures Bit(b + Pow2(z), i) == (Bit(b, i) || i == z)
  {
    if z > 0 {
      assert (b + Pow2(z)) / 2 == b / 2 + Pow2(z - 1);
      if i > 0 {
        SetBitAt(b / 2, z - 1, i - 1);
      }
    } else if i > 0 {
      assert (b + 1) / 2 == b / 2;
    }
  }

  /** Setting a clear bit below `w` keeps a value below 2^w. */
  lemma {:induction false} SetBitBound(b: nat, z: nat, w: nat)
    requires !Bit(b, z) && b < Pow2(w) && z < w
    ensures b + Pow2(z) < Pow2(w)
  {
    var h := Pow2(w - 1);
    assert Pow2(w) == 2 * h;
    assert b == 2 * (b / 2) + b % 2;
    if z > 0 {
      assert b / 2 < h;
      SetBitBound(b / 2, z - 1, w - 1);
      assert b + Pow2(z) == 2 * (b / 2 + Pow2(z - 1)) + b % 2;
    } else {
      assert b % 2 == 0;
    }
  }

  /** The indices of the set bits of `b`, lowest first. */
  function SetBits(b: nat): seq<nat>
    decreases b
  {
    if b == 0 then [] else [TrailingZeros(b)] + SetBits(b - Pow2(TrailingZeros(b)))
  }

  /** `count_ones`. */
  function PopCount(b: nat): nat
  {
    if b == 0 then 0 else b % 2 + PopCount(b / 2)
  }

  lemma {:induction false} SetBitsMembers(b: nat)
    ensures forall i :: i in SetBits(b) <==> Bit(b, i)
    decreases b
  {
    if b == 0 {
      forall i ensures !Bit(0, i) {
        NoHighBits(0, 0, i);
      }
    } else {
      var z := TrailingZeros(b);
      SetBitsMembers(b - Pow2(z));
      forall i ensures Bit(b - Pow2(z), i) == (Bit(b, i) && i != z) {
        ClearBitAt(b, z, i);
      }
    }
  }

  lemma {:induction false} SetBitsAscending(b: nat)
    ensures forall j, k :: 0 <= j < k < |SetBits(b)| ==> SetBits(b)[j] < SetBits(b)[k]
    decreases b
  {
    if b > 0 {
      var z := TrailingZeros(b);
      var rest := b - Pow2(z);
      SetBitsAscending(rest);
      SetBitsMembers(rest);
      forall x | x in SetBits(rest) ensures z < x {
        ClearBitAt(b, z, x);
      }
      forall k | 0 < k < |SetBits(b)| ensures SetBits(b)[k] == SetBits(rest)[k - 1] && z < SetBits(b)[k] {
        assert SetBits(rest)[k - 1] in SetBits(rest);
      }
    }
  }

  lemma {:induction false} PopCountClear(b: nat, z: nat)
    requires Bit(b, z)
    ensures Pow2(z) <= b && PopCount(b) == PopCount(b - Pow2(z)) + 1
  {
    BitBound(b, z);
    if z > 0 {
      assert (b - Pow2(z)) / 2 == b / 2 - Pow2(z - 1);
      PopCountClear(b / 2, z - 1);
    } else {
      assert (b - 1) / 2 == b / 2;
    }
  }

  lemma {:induction false} SetBitsCount(b: nat)
    ensures |SetBits(b)| == PopCount(b)
    decreases b
  {
    if b > 0 {
      var z := TrailingZeros(b);
      PopCountClear(b, z);
      SetBitsCount(b - Pow2(z));
    }
  }

  /** `iter_set_bits(bitset)`, with the yielded indices collected in
      order: exactly the set bits, ascending, `count_ones` of them. */
  method IterSetBits(bitset: u64) returns (ixs: seq<nat>)
    ensures ixs == SetBits(bitset)
    ensures forall i :: i in ixs <==> i < 64 && Bit(bitset, i)
    ensures forall j, k :: 0 <= j < k < |ixs| ==> ixs[j] < ixs[k]
    ensures |ixs| == PopCount(bitset)
  {
    Pow2Word();
    var b: nat := bitset;
    ixs := [];
    while b != 0
      invariant b < Pow2(64)
      invariant ixs + SetBits(b) == SetBits(bitset)
      decreases b
    {
      LowestSetBit(b, 64);
      var t := And(b, WrappingNeg(b));
      ixs := ixs + [TrailingZeros(b)];
      XorSetBit(b, TrailingZeros(b));
      b := Xor(b, t);
    }
    SetBitsMembers(bitset);
    SetBitsAscending(bitset);
    SetBitsCount(bitset);
    forall i | Bit(bitset, i) ensures i < 64 {
      if i >= 64 {
        NoHighBits(bitset, 64, i);
      }
    }
  }
}
