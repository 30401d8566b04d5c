/**
 * Single-bit access to a byte (p5/bits.c).  Bit 0 is the lowest-order bit.
 * Every caller passes a position below 8, so positions are 0..7 here.
 */
module Bits {

  /** `1 << n`: the byte with only bit `n` set. */
  function Mask(n: nat): bv8
    requires n < 8
  {
    if n == 0 then 1 else Mask(n - 1) << 1
  }

  /** The mask of bit `n` is the `n`-th power of two. */
  lemma MaskIsPowerOfTwo(n: nat)
    requires n < 8
    ensures Mask(n) == [1, 2, 4, 8, 16, 32, 64, 128][n]
  {
  }

  /** Shifting 1 left by `n` is the mask of bit `n`. */
  lemma ShiftIsMask(n: nat)
    requires n < 8
    ensures (1 as bv8) << n == Mask(n)
  {
    MaskIsPowerOfTwo(n);
    if n == 0 {
    } else if n == 1 {
    } else if n == 2 {
    } else if n == 3 {
    } else if n == 4 {
    } else if n == 5 {
    } else if n == 6 {
    } else {
      assert n == 7;
    }
  }

  /** Bit 0 of `ch` shifted right by `n` is set exactly when `ch` has a bit in common with the mask of bit `n`. */
  lemma ShiftedBit(ch: bv8, n: nat)
    requires n < 8
    ensures (ch >> n) & 1 == 1 <==> ch & Mask(n) != 0
  {
    MaskIsPowerOfTwo(n);
    if n == 0 {
    } else if n == 1 {
    } else if n == 2 {
    } else if n == 3 {
    } else if n == 4 {
    } else if n == 5 {
    } else if n == 6 {
    } else {
      assert n == 7;
    }
  }

  /** getBit: bit `n` of `ch`, tested through its mask; the same as shifting `ch` right by `n` and keeping bit 0. */
  function GetBit(ch: bv8, n: nat): (b: bool)
    requires n < 8
    ensures b <==> (ch >> n) & 1 == 1
  {
    ShiftedBit(ch, n);
    ch & Mask(n) != 0
  }

  /** putBit: `ch` with bit `n` set (v true) or cleared (v false), `1 << n` being the mask. */
  function PutBit(ch: bv8, n: nat, v: bool): (r: bv8)
    requires n < 8
    ensures v ==> r == ((1 as bv8) << n) | ch
    ensures !v ==> r == ch & !((1 as bv8) << n)
  {
    ShiftIsMask(n);
    if v then Mask(n) | ch else ch & !Mask(n)
  }

  /** putBit with true sets bit `n`; with false it clears it: reading it back gives the value put. */
  lemma GetPutSame(ch: bv8, n: nat, v: bool)
    requires n < 8
    ensures GetBit(PutBit(ch, n, v), n) == v
  {
    MaskIsPowerOfTwo(n);
  }

  /** Putting a bit leaves every other bit as it was. */
  lemma GetPutOther(ch: bv8, n: nat, m: nat, v: bool)
    requires n < 8 && m < 8 && m != n
    ensures GetBit(PutBit(ch, n, v), m) == GetBit(ch, m)
  {
    MaskIsPowerOfTwo(n);
    MaskIsPowerOfTwo(m);
  }

  /** A byte is determined by its eight bits. */
  lemma ByteFromBits(a: bv8, b: bv8)
    requires forall n :: 0 <= n < 8 ==> GetBit(a, n) == GetBit(b, n)
    ensures a == b
  {
    assert GetBit(a, 0) == GetBit(b, 0) && GetBit(a, 1) == GetBit(b, 1);
    assert GetBit(a, 2) == GetBit(b, 2) && GetBit(a, 3) == GetBit(b, 3);
    assert GetBit(a, 4) == GetBit(b, 4) && GetBit(a, 5) == GetBit(b, 5);
    assert GetBit(a, 6) == GetBit(b, 6) && GetBit(a, 7) == GetBit(b, 7);
  }

  /** Putting the same bit twice is putting it once. */
  lemma PutBitIdempotent(ch: bv8, n: nat, v: bool)
    requires n < 8
    ensures PutBit(PutBit(ch, n, v), n, v) == PutBit(ch, n, v)
  {
    MaskIsPowerOfTwo(n);
  }
}
