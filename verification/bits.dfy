/** Bitwise reasoning over unsigned integers, enough to state what the
    `flags & flag == flag` tests of a UF2 block mean bit by bit. */
module Bits {

  /** Bit `i` of `x` (bit 0 is the least significant). */
  predicate Bit(x: nat, i: nat)
  {
    if i == 0 then x % 2 == 1 else Bit(x / 2, i - 1)
  }

  function Pow2(k: nat): (r: nat)
    ensures r >= 1
  {
    if k == 0 then 1 else 2 * Pow2(k - 1)
  }

  /** The powers of two that the UF2 flag constants are. */
  lemma FlagPowers()
    ensures Pow2(0) == 0x1 && Pow2(12) == 0x1000 && Pow2(14) == 0x4000 && Pow2(15) == 0x8000
  {
    assert Pow2(1) == 0x2;
    assert Pow2(2) == 0x4;
    assert Pow2(3) == 0x8;
    assert Pow2(4) == 0x10;
    assert Pow2(5) == 0x20;
    assert Pow2(6) == 0x40;
    assert Pow2(7) == 0x80;
    assert Pow2(8) == 0x100;
    assert Pow2(9) == 0x200;
    assert Pow2(10) == 0x400;
    assert Pow2(11) == 0x800;
    assert Pow2(12) == 0x1000;
    assert Pow2(13) == 0x2000;
    assert Pow2(14) == 0x4000;
    assert Pow2(15) == 0x8000;
  }

  /** Bitwise AND of two naturals (Rust's `&` on unsigned integers). */
  function BitAnd(a: nat, b: nat): (r: nat)
    ensures r <= a && r <= b
    decreases a
  {
    if a == 0 || b == 0 then 0
    else 2 * BitAnd(a / 2, b / 2) + (if a % 2 == 1 && b % 2 == 1 then 1 else 0)
  }

  lemma {:induction false} ZeroHasNoBits(i: nat)
    ensures !Bit(0, i)
  {
    if i > 0 {
      ZeroHasNoBits(i - 1);
    }
  }

  /** Each bit of `a & b` is the conjunction of the bits of `a` and `b`. */
  lemma {:induction false} BitAndBit(a: nat, b: nat, i: nat)
    ensures Bit(BitAnd(a, b), i) <==> Bit(a, i) && Bit(b, i)
    decreases i
  {
    if a == 0 || b == 0 {
      ZeroHasNoBits(i);
    } else if i > 0 {
      var r := BitAnd(a, b);
      assert r / 2 == BitAnd(a / 2, b / 2);
      BitAndBit(a / 2, b / 2, i - 1);
    }
  }

  /** A natural is determined by its bits. */
  lemma {:induction false} BitsDetermine(x: nat, y: nat)
    requires forall i: nat :: Bit(x, i) <==> Bit(y, i)
    ensures x == y
    decreases x + y
  {
    if x != 0 || y != 0 {
      assert Bit(x, 0) <==> Bit(y, 0);
      forall i: nat
        ensures Bit(x / 2, i) <==> Bit(y / 2, i)
      {
        assert Bit(x, i + 1) <==> Bit(y, i + 1);
      }
      BitsDetermine(x / 2, y / 2);
    }
  }

  /** Every bit set in `f` is also set in `flags`. */
  ghost predicate Covers(flags: nat, f: nat)
  {
    forall i: nat :: Bit(f, i) ==> Bit(flags, i)
  }

  /** `flags & f == f` holds exactly when every bit set in `f` is set in `flags`. */
  lemma MaskCoversBits(flags: nat, f: nat)
    ensures BitAnd(flags, f) == f <==> Covers(flags, f)
  {
    if BitAnd(flags, f) == f {
      forall i: nat | Bit(f, i)
        ensures Bit(flags, i)
      {
        BitAndBit(flags, f, i);
      }
    } else if Covers(flags, f) {
      forall i: nat
        ensures Bit(BitAnd(flags, f), i) <==> Bit(f, i)
      {
        BitAndBit(flags, f, i);
      }
      BitsDetermine(BitAnd(flags, f), f);
    }
  }

  /** `2^k` has exactly one bit set, bit `k`. */
  lemma {:induction false} Pow2SingleBit(k: nat, i: nat)
    ensures Bit(Pow2(k), i) <==> i == k
    decreases k
  {
    if k == 0 {
      if i > 0 {
        ZeroHasNoBits(i - 1);
      }
    } else if i > 0 {
      Pow2SingleBit(k - 1, i - 1);
    }
  }

  /** Testing a one-bit mask `2^k` is reading bit `k`. */
  lemma SingleBitMask(flags: nat, k: nat)
    ensures BitAnd(flags, Pow2(k)) == Pow2(k) <==> Bit(flags, k)
  {
  }
}
