/** Facts about multiplication and Euclidean division shared by the grid and bit-layout models. */
module Arith {

  /** Multiplying by a non-negative n keeps the order. */
  lemma {:induction false} MulMono(a: int, b: int, n: nat)
    requires a <= b
    ensures a * n <= b * n
    decreases b - a
  {
    if a < b {
      MulMono(a, b - 1, n);
      assert b * n == (b - 1) * n + n;
    }
  }

  /** Two quotient-remainder splits of one number by n agree. */
  lemma QuotientUnique(a: int, r: int, b: int, t: int, n: int)
    requires n >= 1 && 0 <= r < n && 0 <= t < n && a * n + r == b * n + t
    ensures a == b && r == t
  {
    if a < b {
      MulMono(a + 1, b, n);
    }
    if b < a {
      MulMono(b + 1, a, n);
    }
  }

  /** For a positive n, multiplying by n keeps and reflects the strict order. */
  lemma MulLess(a: int, b: int, n: int)
    requires n >= 1
    ensures a < b <==> a * n < b * n
  {
    if a < b {
      MulMono(a + 1, b, n);
    } else {
      MulMono(b, a, n);
    }
  }

  /** Quotient and remainder are determined by any quotient-remainder split. */
  lemma DivUnique(x: int, a: int, r: int, n: int)
    requires n >= 1 && x == a * n + r && 0 <= r < n
    ensures x / n == a && x % n == r
  {
    QuotientUnique(a, r, x / n, x % n, n);
  }

  /** One more factor of n. */
  lemma MulSucc(a: int, n: int)
    ensures (a + 1) * n == a * n + n
  {
  }

  /**
   * Bit position x = p * bits + b of a layout with `bits` bits per slot, equal
   * to 8 * c + i: the slot p lies within the first len slots when the first k
   * whole bytes, c among them, fit in them, and x is bit i of byte c.
   */
  lemma Slot(p: nat, b: nat, bits: nat, c: nat, i: nat, k: nat, len: nat)
    requires 1 <= bits && b < bits && i < 8 && p * bits + b == 8 * c + i
    requires c < k && 8 * k <= len * bits
    ensures p < len && (p * bits + b) / 8 == c && (p * bits + b) % 8 == i
  {
    MulLess(p, len, bits);
    DivUnique(p * bits + b, c, i, 8);
  }

  /** With slots of n bits, bit b of slot j comes before slot k exactly when j does. */
  lemma SlotOrder(j: int, b: int, n: int, k: int)
    requires n >= 1 && 0 <= b < n
    ensures j < k <==> j * n + b < k * n
  {
    if j < k {
      MulMono(j + 1, k, n);
      MulSucc(j, n);
    } else {
      MulMono(k, j, n);
    }
  }

  /**
   * Bit i of byte c, in a layout of `bits` bits per slot over cap slots that
   * holds len whole bytes exactly in its first 8 * len / bits slots: its slot
   * and position, and which side of the end of those bytes it lies on.
   */
  lemma BitAddress(c: nat, i: nat, bits: nat, len: nat, cap: nat) returns (j: nat, n: nat)
    requires 1 <= bits && i < 8 && 8 * len <= cap * bits && (8 * len) % bits == 0
    ensures j == (8 * c + i) / bits && n == (8 * c + i) % bits
    ensures j * bits + n == 8 * c + i && n < bits
    ensures (j < 8 * len / bits <==> c < len) && (c < len ==> j < cap)
    ensures (8 * c + i) / 8 == c && (8 * c + i) % 8 == i
  {
    var t := 8 * c + i;
    j, n := t / bits, t % bits;
    var full := 8 * len / bits;
    assert t == j * bits + n;
    assert 8 * len == full * bits;
    SlotOrder(j, n, bits, full);
    SlotOrder(j, n, bits, cap);
    DivUnique(t, c, i, 8);
  }
}
