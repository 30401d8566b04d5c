/**
 * The extraction loop of p5/extract.c, lifted out of `main` as a method on
 * the image's colour bytes, and the round trip with the embedding of
 * p5/conceal.c.
 */
module Extract {
  import opened Wrappers
  import opened Bits
  import opened Arith
  import opened Conceal

  /** Bit t of the layout: bit t % bits of colour byte t / bits (none past the last byte). */
  function LayoutBit(colors: seq<bv8>, bits: nat, t: nat): bool
    requires 1 <= bits <= 8
  {
    if t / bits < |colors| then GetBit(colors[t / bits], t % bits) else false
  }

  /** Every bit of character `ch`, the `c`-th read, comes from its place in the layout. */
  ghost predicate CharExtracted(ch: bv8, colors: seq<bv8>, bits: nat, c: nat)
    requires 1 <= bits <= 8
  {
    forall i :: 0 <= i < 8 ==> GetBit(ch, i) == LayoutBit(colors, bits, BYTE * c + i)
  }

  /** Every character of `out` is read from its place in the layout. */
  ghost predicate IsExtraction(out: seq<bv8>, colors: seq<bv8>, bits: nat)
    requires 1 <= bits <= 8
  {
    forall c :: 0 <= c < |out| ==> CharExtracted(out[c], colors, bits, c)
  }

  /** The first `i` bits of character `ch`, the `c`-th read, come from their places in the layout. */
  ghost predicate PartExtracted(ch: bv8, colors: seq<bv8>, bits: nat, c: nat, i: nat)
    requires 1 <= bits <= 8 && i <= 8
  {
    forall m :: 0 <= m < i ==> GetBit(ch, m) == LayoutBit(colors, bits, BYTE * c + m)
  }

  /** Reading the next layout bit into bit `i` extends the extracted prefix of the character by one bit. */
  lemma ExtractStep(ch: bv8, colors: seq<bv8>, bits: nat, c: nat, i: nat, p: nat, b: nat)
    requires 1 <= bits <= 8 && i < 8 && b < bits && p < |colors| && p * bits + b == BYTE * c + i
    requires PartExtracted(ch, colors, bits, c, i)
    ensures PartExtracted(PutBit(ch, i, GetBit(colors[p], b)), colors, bits, c, i + 1)
  {
    var v := GetBit(colors[p], b);
    DivUnique(BYTE * c + i, p, b, bits);
    forall m | 0 <= m < i + 1
      ensures GetBit(PutBit(ch, i, v), m) == LayoutBit(colors, bits, BYTE * c + m)
    {
      if m == i {
        GetPutSame(ch, i, v);
      } else {
        GetPutOther(ch, i, m, v);
      }
    }
  }

  /** One turn of the extraction loop's inner loop: bit `b` of color[p] becomes bit `i` of character `c`. */
  method ExtractBit(color: array<bv8>, message: array<bv8>, c: nat, i: nat, bits: nat, p: nat, b: nat) returns (p': nat, b': nat)
    requires 1 <= bits <= BYTE && i < BYTE && b < bits && p * bits + b == BYTE * c + i
    requires message != color && c < message.Length && BYTE * c + BYTE <= color.Length * bits
    requires PartExtracted(message[c], color[..], bits, c, i)
    modifies message
    ensures b' < bits && p' * bits + b' == p * bits + b + 1
    ensures PartExtracted(message[c], color[..], bits, c, i + 1)
    ensures forall k :: 0 <= k < message.Length && k != c ==> message[k] == old(message[k])
  {
    Slot(p, b, bits, c, i, c + 1, color.Length);
    ExtractStep(message[c], color[..], bits, c, i, p, b);
    message[c] := PutBit(message[c], i, GetBit(color[p], b));
    p', b' := p, b + 1;
    if b' == bits {
      MulSucc(p, bits);
      p', b' := p + 1, 0;
    }
  }

  /** One pass of the extraction loop's inner loop: the eight bits of character `c`. */
  method ExtractCharacter(color: array<bv8>, message: array<bv8>, c: nat, bits: nat, p: nat, b: nat) returns (p': nat, b': nat)
    requires 1 <= bits <= BYTE && b < bits && p * bits + b == BYTE * c
    requires message != color && c < message.Length && BYTE * c + BYTE <= color.Length * bits
    modifies message
    ensures b' < bits && p' * bits + b' == BYTE * (c + 1)
    ensures CharExtracted(message[c], color[..], bits, c)
    ensures forall k :: 0 <= k < message.Length && k != c ==> message[k] == old(message[k])
  {
    p', b' := p, b;
    for i := 0 to BYTE
      invariant b' < bits && p' * bits + b' == BYTE * c + i
      invariant PartExtracted(message[c], color[..], bits, c, i)
      invariant forall k :: 0 <= k < message.Length && k != c ==> message[k] == old(message[k])
    {
      p', b' := ExtractBit(color, message, c, i, bits, p', b');
    }
  }

  /**
   * The extraction loop: whole characters are read until every colour byte
   * is used up; the result is the number of characters read.
   */
  method ExtractAll(color: array<bv8>, message: array<bv8>, bits: nat) returns (charsProcessed: nat)
    requires 1 <= bits <= BYTE && message != color
    requires (color.Length * bits) % BYTE == 0 && color.Length * bits < message.Length
    modifies message
    ensures BYTE * charsProcessed == color.Length * bits
    ensures forall k :: 0 <= k < charsProcessed ==> CharExtracted(message[k], color[..], bits, k)
  {
    ghost var total := color.Length * bits;
    ghost var q := total / BYTE;
    assert total == BYTE * q;
    charsProcessed := 0;
    var bitsProcessed: nat, pixelsProcessed: nat := 0, 0;
    while pixelsProcessed < color.Length
      invariant bitsProcessed < bits && pixelsProcessed * bits + bitsProcessed == BYTE * charsProcessed
      invariant pixelsProcessed <= color.Length && charsProcessed <= q
      invariant forall k :: 0 <= k < charsProcessed ==> CharExtracted(message[k], color[..], bits, k)
      decreases q - charsProcessed
    {
      assert BYTE * charsProcessed + BYTE <= total by {
        MulMono(pixelsProcessed + 1, color.Length, bits);
        assert (pixelsProcessed + 1) * bits == pixelsProcessed * bits + bits;
      }
      pixelsProcessed, bitsProcessed := ExtractCharacter(color, message, charsProcessed, bits, pixelsProcessed, bitsProcessed);
      charsProcessed := charsProcessed + 1;
      assert pixelsProcessed <= color.Length by {
        MulLess(color.Length, pixelsProcessed, bits);
      }
    }
    assert pixelsProcessed == color.Length;
  }

  /**
   * extract: reads every colour byte's low `bits` bits back into characters,
   * in the layout conceal writes, into a fresh buffer of bits * rows * cols * 3
   * + 1 bytes, and ends the characters with a NUL.  A bit count outside 1..8
   * is refused.  The loop reads whole characters, so the image must supply a
   * whole number of them.
   */
  method Extract(color: array<bv8>, rows: nat, cols: nat, bits: int) returns (r: Result<(array<bv8>, nat), StegError>)
    requires color.Length == cols * rows * PIXEL_WIDTH
    requires 1 <= bits <= BYTE ==> (cols * rows * PIXEL_WIDTH * bits) % BYTE == 0
    ensures (bits < 1 || bits > BYTE) <==> r == Failure(InvalidBits)
    ensures 1 <= bits <= BYTE ==> r.Success?
    ensures r.Success? ==>
              var (message, count) := r.value;
              fresh(message) && message.Length == bits * cols * rows * PIXEL_WIDTH + 1 &&
              count == color.Length * bits / BYTE && count < message.Length &&
              IsExtraction(message[..count], color[..], bits) && message[count] == 0
  {
    if bits < 1 || bits > BYTE {
      return Failure(InvalidBits);
    }
    var size := bits * cols * rows * PIXEL_WIDTH;
    assert size == color.Length * bits;
    var message := new bv8[size + 1];
    var charsProcessed := ExtractAll(color, message, bits);
    message[charsProcessed] := 0;
    return Success((message, charsProcessed));
  }

  /**
   * One bit of the round trip: reading back bit `i` of character `c` gives
   * that bit of the message, and a clear bit past its end.
   */
  lemma BitRoundTrip(orig: seq<bv8>, cur: seq<bv8>, msg: seq<bv8>, bits: nat, c: nat, i: nat)
    requires 1 <= bits <= BYTE && i < BYTE
    requires BYTE * |msg| <= |orig| * bits && (BYTE * |msg|) % bits == 0
    requires IsConcealed(cur, orig, msg, bits)
    ensures LayoutBit(cur, bits, BYTE * c + i) == (c < |msg| && GetBit(msg[c], i))
  {
    var j, n := BitAddress(c, i, bits, |msg|, |orig|);
    if j < |cur| {
      assert GetBit(cur[j], n) == ConcealedBit(orig, msg, bits, j, n);
    }
  }

  /**
   * The round trip: conceal `text` into `orig` with `bits` bits per byte,
   * extract from the result with the same `bits`, and when 8 * length is a
   * multiple of bits the printed message (everything before the first NUL)
   * is the concealed text (everything before its first NUL).
   */
  lemma RoundTrip(orig: seq<bv8>, cur: seq<bv8>, text: seq<bv8>, bits: nat, out: seq<bv8>)
    requires 1 <= bits <= BYTE
    requires StrLen(text) * BYTE <= |orig| * bits && (BYTE * StrLen(text)) % bits == 0
    requires IsConcealed(cur, orig, text[..StrLen(text)], bits)
    requires |out| == |cur| * bits / BYTE && IsExtraction(out, cur, bits)
    ensures out[..StrLen(out)] == text[..StrLen(text)]
  {
    var msg := text[..StrLen(text)];
    forall c | 0 <= c < |out|
      ensures out[c] == if c < |msg| then msg[c] else 0
    {
      forall i | 0 <= i < 8
        ensures GetBit(out[c], i) == GetBit(if c < |msg| then msg[c] else 0, i)
      {
        BitRoundTrip(orig, cur, msg, bits, c, i);
        MaskIsPowerOfTwo(i);
      }
      ByteFromBits(out[c], if c < |msg| then msg[c] else 0);
    }
    assert |cur| * bits == BYTE * |out| + (|cur| * bits) % BYTE;
    assert |msg| <= |out|;
    StrLenAt(out, |msg|);
    assert out[..|msg|] == msg;
  }

  /** strlen is the position of the first NUL: nonzero bytes before it, and a NUL or the end at it. */
  lemma {:induction false} StrLenAt(s: seq<bv8>, n: nat)
    requires n <= |s| && (forall k :: 0 <= k < n ==> s[k] != 0) && (n < |s| ==> s[n] == 0)
    ensures StrLen(s) == n
  {
    if n > 0 {
      StrLenAt(s[1..], n - 1);
    }
  }

  /**
   * Without the multiple-of-bits condition the round trip fails: hiding the
   * single character 0xFF with 3 bits per byte stores its top two bits in a
   * byte the padding then clears, so 0x3F is read back.
   */
  lemma LastCharacterTruncated(orig: seq<bv8>, cur: seq<bv8>, out: seq<bv8>)
    requires |orig| >= 3
    requires IsConcealed(cur, orig, [0xFF], 3)
    requires |out| == |cur| * 3 / BYTE && IsExtraction(out, cur, 3)
    ensures |out| >= 1 && out[0] == 0x3F
  {
    assert CharExtracted(out[0], cur, 3, 0);
    forall i | 0 <= i < 8
      ensures GetBit(out[0], i) == GetBit(0x3F, i)
    {
      TruncatedBit(orig, cur, i);
      MaskIsPowerOfTwo(i);
    }
    ByteFromBits(out[0], 0x3F);
  }

  /** The layout bits of 0xFF concealed with 3 bits per byte: six set bits, then two cleared by the padding. */
  lemma TruncatedBit(orig: seq<bv8>, cur: seq<bv8>, i: nat)
    requires |orig| >= 3 && i < 8
    requires IsConcealed(cur, orig, [0xFF], 3)
    ensures LayoutBit(cur, 3, i) == (i < 6)
  {
    var j, n := i / 3, i % 3;
    assert ConcealedBit(orig, [0xFF], 3, j, n) == (i < 6) by {
      if i < 6 {
        MaskIsPowerOfTwo(i);
        assert j * 3 + n == i;
        assert MessageBit([0xFF], i) == GetBit(0xFF, i);
      }
    }
    assert GetBit(cur[j], n) == ConcealedBit(orig, [0xFF], 3, j, n);
  }
}
