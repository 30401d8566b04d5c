/**
 * The embedding and padding loops of p5/conceal.c, lifted out of `main` as a
 * method on the image's colour bytes.
 *
 * Bit layout: message bit t (bit t % 8 of character t / 8, counted from the
 * low bit) goes to bit t % bits of colour byte t / bits.  Only the low `bits`
 * bits of a colour byte are ever touched.  After the message, the low `bits`
 * bits of every byte from the first not completely filled one onward are
 * cleared.
 */
module Conceal {
  import opened Wrappers
  import opened Bits
  import opened Arith

  /** Bits in a byte. */
  const BYTE := 8
  /** Colour bytes per pixel. */
  const PIXEL_WIDTH := 3

  datatype StegError = InvalidBits | TooFewPixels

  /** strlen: the number of bytes before the first NUL. */
  function StrLen(s: seq<bv8>): (n: nat)
    ensures n <= |s|
    ensures forall k :: 0 <= k < n ==> s[k] != 0
    ensures n < |s| ==> s[n] == 0
  {
    if s == [] || s[0] == 0 then 0 else 1 + StrLen(s[1..])
  }

  /** Message bit t: bit t % 8 of character t / 8; there are no bits outside the message. */
  function MessageBit(msg: seq<bv8>, t: int): bool
  {
    if 0 <= t < BYTE * |msg| then GetBit(msg[t / BYTE], t % BYTE) else false
  }

  /**
   * Bit `n` of colour byte `j` once `msg` is concealed with `bits` bits per
   * byte: a high bit is the original one; a low bit holds message bit
   * j * bits + n when byte `j` was completely filled, and is cleared otherwise.
   */
  function ConcealedBit(orig: seq<bv8>, msg: seq<bv8>, bits: nat, j: nat, n: nat): bool
    requires j < |orig| && n < 8 && 1 <= bits
  {
    if n >= bits then GetBit(orig[j], n)
    else if j < BYTE * |msg| / bits then MessageBit(msg, j * bits + n)
    else false
  }

  /** `cur` is `orig` with `msg` concealed in it, bit for bit. */
  ghost predicate IsConcealed(cur: seq<bv8>, orig: seq<bv8>, msg: seq<bv8>, bits: nat)
    requires 1 <= bits
  {
    |cur| == |orig| &&
    forall j, n :: 0 <= j < |cur| && 0 <= n < 8 ==> GetBit(cur[j], n) == ConcealedBit(orig, msg, bits, j, n)
  }

  // ---------------------------------------------------------------------------
  // The state of the colour bytes part-way through the two loops
  // ---------------------------------------------------------------------------

  /**
   * Bit `n` of byte `j` when the next message bit goes to bit `b` of byte `p`
   * and the padding loop has cleared bytes p .. c-1 (c == p while embedding).
   */
  function StageBit(orig: seq<bv8>, msg: seq<bv8>, bits: nat, p: nat, b: nat, c: nat, j: nat, n: nat): bool
    requires j < |orig| && n < 8
  {
    if n >= bits then GetBit(orig[j], n)
    else if p <= j < c then false
    else if j < p || (j == p && n < b) then MessageBit(msg, j * bits + n)
    else GetBit(orig[j], n)
  }

  ghost predicate Stage(cur: seq<bv8>, orig: seq<bv8>, msg: seq<bv8>, bits: nat, p: nat, b: nat, c: nat)
  {
    |cur| == |orig| &&
    forall j, n :: 0 <= j < |cur| && 0 <= n < 8 ==> GetBit(cur[j], n) == StageBit(orig, msg, bits, p, b, c, j, n)
  }

  /** Writing the next message bit, seen at one colour bit. */
  lemma EmbedStepAt(cur: seq<bv8>, orig: seq<bv8>, msg: seq<bv8>, bits: nat, p: nat, b: nat, j: nat, n: nat)
    requires b < bits <= 8 && p < |cur| == |orig| && j < |cur| && n < 8
    requires GetBit(cur[j], n) == StageBit(orig, msg, bits, p, b, p, j, n)
    ensures GetBit(cur[p := PutBit(cur[p], b, MessageBit(msg, p * bits + b))][j], n) == StageBit(orig, msg, bits, p, b + 1, p, j, n)
  {
    var v := MessageBit(msg, p * bits + b);
    if j == p {
      if n == b {
        GetPutSame(cur[p], b, v);
      } else {
        GetPutOther(cur[p], b, n, v);
      }
    }
  }

  /** Writing the next message bit moves the write position one bit on. */
  lemma EmbedStep(cur: seq<bv8>, orig: seq<bv8>, msg: seq<bv8>, bits: nat, p: nat, b: nat)
    requires b < bits <= 8 && p < |cur|
    requires Stage(cur, orig, msg, bits, p, b, p)
    ensures Stage(cur[p := PutBit(cur[p], b, MessageBit(msg, p * bits + b))], orig, msg, bits, p, b + 1, p)
  {
    var next := cur[p := PutBit(cur[p], b, MessageBit(msg, p * bits + b))];
    forall j, n | 0 <= j < |next| && 0 <= n < 8
      ensures GetBit(next[j], n) == StageBit(orig, msg, bits, p, b + 1, p, j, n)
    {
      EmbedStepAt(cur, orig, msg, bits, p, b, j, n);
    }
  }

  /** A completely filled byte: the write position moves to bit 0 of the next byte. */
  lemma EmbedCarry(cur: seq<bv8>, orig: seq<bv8>, msg: seq<bv8>, bits: nat, p: nat, b: nat)
    requires b == bits && Stage(cur, orig, msg, bits, p, b, p)
    ensures Stage(cur, orig, msg, bits, p + 1, 0, p + 1)
  {
  }

  /** Clearing the low bits of byte c extends the cleared range by one byte. */
  lemma PadStep(cur: seq<bv8>, x: bv8, orig: seq<bv8>, msg: seq<bv8>, bits: nat, p: nat, b: nat, c: nat)
    requires p <= c < |cur|
    requires Stage(cur, orig, msg, bits, p, b, c)
    requires forall m :: 0 <= m < 8 ==> GetBit(x, m) == (if m < bits then false else GetBit(cur[c], m))
    ensures Stage(cur[c := x], orig, msg, bits, p, b, c + 1)
  {
  }

  /** Once every byte from p on is cleared, the colour bytes are the concealed image. */
  lemma StageFinal(cur: seq<bv8>, orig: seq<bv8>, msg: seq<bv8>, bits: nat, p: nat, b: nat)
    requires 1 <= bits && b < bits && p * bits + b == BYTE * |msg| && p <= |cur|
    requires Stage(cur, orig, msg, bits, p, b, |cur|)
    ensures IsConcealed(cur, orig, msg, bits)
  {
    DivUnique(BYTE * |msg|, p, b, bits);
  }

  // ---------------------------------------------------------------------------
  // The loops
  // ---------------------------------------------------------------------------

  /** The padding loop's inner loop: clears bits 0 .. bits-1 of color[c]. */
  method ClearLowBits(color: array<bv8>, c: nat, bits: nat)
    requires c < color.Length && bits <= 8
    modifies color
    ensures forall j :: 0 <= j < color.Length && j != c ==> color[j] == old(color[j])
    ensures forall m :: 0 <= m < 8 ==> GetBit(color[c], m) == (if m < bits then false else GetBit(old(color[c]), m))
  {
    for n := 0 to bits
      invariant forall j :: 0 <= j < color.Length && j != c ==> color[j] == old(color[j])
      invariant forall m :: 0 <= m < 8 ==> GetBit(color[c], m) == (if m < n then false else GetBit(old(color[c]), m))
    {
      ghost var before := color[c];
      color[c] := PutBit(color[c], n, false);
      forall m | 0 <= m < 8
        ensures GetBit(color[c], m) == (if m < n + 1 then false else GetBit(old(color[c]), m))
      {
        if m == n {
          GetPutSame(before, n, false);
        } else {
          GetPutOther(before, n, m, false);
        }
      }
    }
  }

  /** Writing the next message bit, and moving to the next byte when this one is full. */
  lemma EmbedAdvance(cur: seq<bv8>, orig: seq<bv8>, msg: seq<bv8>, bits: nat, p: nat, b: nat)
    requires b < bits <= 8 && p < |cur|
    requires Stage(cur, orig, msg, bits, p, b, p)
    ensures var next := cur[p := PutBit(cur[p], b, MessageBit(msg, p * bits + b))];
            if b + 1 == bits then Stage(next, orig, msg, bits, p + 1, 0, p + 1)
            else Stage(next, orig, msg, bits, p, b + 1, p)
  {
    EmbedStep(cur, orig, msg, bits, p, b);
    if b + 1 == bits {
      EmbedCarry(cur[p := PutBit(cur[p], b, MessageBit(msg, p * bits + b))], orig, msg, bits, p, b + 1);
    }
  }

  /** One turn of the embedding loop's inner loop: bit `i` of character `c` goes to bit `b` of color[p]. */
  method EmbedBit(color: array<bv8>, text: seq<bv8>, c: nat, i: nat, bits: nat, p: nat, b: nat,
                  ghost orig: seq<bv8>, ghost msg: seq<bv8>) returns (p': nat, b': nat)
    requires 1 <= bits <= BYTE && c < |msg| <= |text| && msg == text[..|msg|] && |msg| * BYTE <= color.Length * bits
    requires i < BYTE && b < bits && p * bits + b == BYTE * c + i
    requires Stage(color[..], orig, msg, bits, p, b, p)
    modifies color
    ensures b' < bits && p' * bits + b' == p * bits + b + 1
    ensures Stage(color[..], orig, msg, bits, p', b', p')
  {
    ghost var cur := color[..];
    Slot(p, b, bits, c, i, |msg|, color.Length);
    ghost var next := cur[p := PutBit(cur[p], b, MessageBit(msg, p * bits + b))];
    EmbedAdvance(cur, orig, msg, bits, p, b);
    color[p] := PutBit(color[p], b, GetBit(text[c], i));
    assert color[..] == next;
    p', b' := p, b + 1;
    if b' == bits {
      MulSucc(p, bits);
      p', b' := p + 1, 0;
    }
  }

  /** One pass of the embedding loop's inner loop: the eight bits of character `c` go to their places. */
  method EmbedCharacter(color: array<bv8>, text: seq<bv8>, c: nat, bits: nat, p: nat, b: nat,
                        ghost orig: seq<bv8>, ghost msg: seq<bv8>) returns (p': nat, b': nat)
    requires 1 <= bits <= BYTE && c < |msg| <= |text| && msg == text[..|msg|] && |msg| * BYTE <= color.Length * bits
    requires b < bits && p * bits + b == BYTE * c
    requires Stage(color[..], orig, msg, bits, p, b, p)
    modifies color
    ensures b' < bits && p' * bits + b' == BYTE * (c + 1)
    ensures Stage(color[..], orig, msg, bits, p', b', p')
  {
    p', b' := p, b;
    for i := 0 to BYTE
      invariant b' < bits && p' * bits + b' == BYTE * c + i
      invariant Stage(color[..], orig, msg, bits, p', b', p')
    {
      p', b' := EmbedBit(color, text, c, i, bits, p', b', orig, msg);
    }
  }

  /**
   * The embedding loop: every bit of text[..length] goes to its place in the
   * layout; the result is the position the next bit would go to.
   */
  method Embed(color: array<bv8>, text: seq<bv8>, length: nat, bits: nat) returns (pixelsProcessed: nat, bitsProcessed: nat)
    requires 1 <= bits <= BYTE && length <= |text| && length * BYTE <= color.Length * bits
    modifies color
    ensures bitsProcessed < bits && pixelsProcessed * bits + bitsProcessed == BYTE * length
    ensures Stage(color[..], old(color[..]), text[..length], bits, pixelsProcessed, bitsProcessed, pixelsProcessed)
  {
    ghost var orig := color[..];
    ghost var msg := text[..length];
    var charsProcessed := 0;
    pixelsProcessed, bitsProcessed := 0, 0;
    while charsProcessed < length
      invariant charsProcessed <= length
      invariant bitsProcessed < bits && pixelsProcessed * bits + bitsProcessed == BYTE * charsProcessed
      invariant Stage(color[..], orig, msg, bits, pixelsProcessed, bitsProcessed, pixelsProcessed)
    {
      pixelsProcessed, bitsProcessed := EmbedCharacter(color, text, charsProcessed, bits, pixelsProcessed, bitsProcessed, orig, msg);
      charsProcessed := charsProcessed + 1;
    }
  }

  /** The padding loop: clears the low `bits` bits of every byte from pixelsProcessed on. */
  method Pad(color: array<bv8>, bits: nat, pixelsProcessed: nat, bitsProcessed: nat, ghost orig: seq<bv8>, ghost msg: seq<bv8>)
    requires 1 <= bits <= BYTE && bitsProcessed < bits
    requires pixelsProcessed * bits + bitsProcessed <= color.Length * bits
    requires Stage(color[..], orig, msg, bits, pixelsProcessed, bitsProcessed, pixelsProcessed)
    modifies color
    ensures Stage(color[..], orig, msg, bits, pixelsProcessed, bitsProcessed, color.Length)
  {
    MulLess(color.Length, pixelsProcessed, bits);
    for i := pixelsProcessed to color.Length
      invariant Stage(color[..], orig, msg, bits, pixelsProcessed, bitsProcessed, i)
    {
      ghost var before := color[..];
      ClearLowBits(color, i, bits);
      assert color[..] == before[i := color[i]];
      PadStep(before, color[i], orig, msg, bits, pixelsProcessed, bitsProcessed, i);
    }
  }

  /** The embedding loop followed by the padding loop: text[..length] ends up concealed in the colour bytes. */
  method Hide(color: array<bv8>, text: seq<bv8>, length: nat, bits: nat)
    requires 1 <= bits <= BYTE && length <= |text| && length * BYTE <= color.Length * bits
    modifies color
    ensures IsConcealed(color[..], old(color[..]), text[..length], bits)
  {
    ghost var orig := color[..];
    var pixelsProcessed, bitsProcessed := Embed(color, text, length, bits);
    Pad(color, bits, pixelsProcessed, bitsProcessed, orig, text[..length]);
    StageFinal(color[..], orig, text[..length], bits, pixelsProcessed, bitsProcessed);
  }

  /**
   * conceal: hides the message `text` (up to its first NUL) in the low `bits`
   * bits of the colour bytes of a rows x cols image.  A bit count outside
   * 1..8 or a message longer than the image can hold is refused before any
   * colour byte changes.
   */
  method Conceal(color: array<bv8>, rows: nat, cols: nat, text: seq<bv8>, bits: int) returns (r: Result<(), StegError>)
    requires color.Length == cols * rows * PIXEL_WIDTH
    modifies color
    ensures (bits < 1 || bits > BYTE) ==> r == Failure(InvalidBits) && color[..] == old(color[..])
    ensures 1 <= bits <= BYTE && cols * rows * bits * PIXEL_WIDTH < StrLen(text) * BYTE ==>
              r == Failure(TooFewPixels) && color[..] == old(color[..])
    ensures 1 <= bits <= BYTE && StrLen(text) * BYTE <= cols * rows * bits * PIXEL_WIDTH ==>
              r == Success(()) && IsConcealed(color[..], old(color[..]), text[..StrLen(text)], bits)
  {
    if bits < 1 || bits > BYTE {
      return Failure(InvalidBits);
    }
    var length := StrLen(text);
    var bitsNeeded := length * BYTE;
    var bitsAvail := cols * rows * bits * PIXEL_WIDTH;
    if bitsAvail < bitsNeeded {
      return Failure(TooFewPixels);
    }
    assert bitsAvail == color.Length * bits;
    Hide(color, text, length, bits);
    return Success(());
  }

  /** Concealing never changes a colour bit at or above position `bits`. */
  lemma HighBitsKept(cur: seq<bv8>, orig: seq<bv8>, msg: seq<bv8>, bits: nat, j: nat, n: nat)
    requires 1 <= bits && IsConcealed(cur, orig, msg, bits)
    requires j < |cur| && bits <= n < 8
    ensures GetBit(cur[j], n) == GetBit(orig[j], n)
  {
  }

  /**
   * When 8 * length is not a multiple of bits, the last message bits share a
   * colour byte with padding, and the padding loop clears them: bit
   * 8 * length - 1 is not stored anywhere.
   */
  lemma PaddingErasesPartialByte(cur: seq<bv8>, orig: seq<bv8>, msg: seq<bv8>, bits: nat)
    requires 1 <= bits <= 8 && IsConcealed(cur, orig, msg, bits)
    requires BYTE * |msg| <= |cur| * bits && (BYTE * |msg|) % bits != 0
    ensures var t := BYTE * |msg| - 1;
            t / bits < |cur| && !GetBit(cur[t / bits], t % bits)
  {
    var t := BYTE * |msg| - 1;
    var p := BYTE * |msg| / bits;
    DivUnique(t, p, BYTE * |msg| % bits - 1, bits);
    MulLess(p, |cur|, bits);
  }
}
