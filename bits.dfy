/**
 * Bitwise AND, as `maskedBytes[offset] &= mask` computes it on a `Uint8Array`
 * (src/feat/MediaType/guess/byMagicBits.ts), defined bit by bit on natural
 * numbers from the lowest bit up.
 */
module Bits {
  /** Bitwise `b & m`: a result bit is set iff both operand bits are. */
  function And(b: nat, m: nat): (r: nat)
    ensures r <= b && r <= m
    decreases b
  {
    if b == 0 || m == 0 then 0
    else 2 * And(b / 2, m / 2) + (if b % 2 == 1 && m % 2 == 1 then 1 else 0)
  }

  /** `2^k`. */
  function Pow2(k: nat): (r: nat)
    ensures r >= 1
  {
    if k == 0 then 1 else 2 * Pow2(k - 1)
  }

  /** A mask of `k` ones keeps every number below `2^k`. */
  lemma {:induction false} AndLowOnes(b: nat, k: nat)
    requires b < Pow2(k)
    ensures And(b, Pow2(k) - 1) == b
    decreases k
  {
    if b != 0 {
      assert k != 0;
      AndLowOnes(b / 2, k - 1);
      assert (Pow2(k) - 1) / 2 == Pow2(k - 1) - 1;
    }
  }

  /** A mask whose lowest bit is clear clears that bit and shifts the rest. */
  lemma AndEvenMask(b: nat, m: nat)
    requires m % 2 == 0
    ensures And(b, m) == 2 * And(b / 2, m / 2)
  {
  }

  /** Five halvings are one division by 32. */
  lemma HalveFive(b: nat)
    ensures b / 2 / 2 / 2 / 2 / 2 == b / 32
  {
    var b1 := b / 2;
    var b2 := b1 / 2;
    var b3 := b2 / 2;
    var b4 := b3 / 2;
    var b5 := b4 / 2;
    assert 32 * b5 <= b < 32 * b5 + 32;
  }

  /** Masking with `0xff` keeps a byte. */
  lemma AndAllOnes(b: nat)
    requires b < 256
    ensures And(b, 0xff) == b
  {
    assert Pow2(8) == 256;
    AndLowOnes(b, 8);
  }

  /** `b & 0xe0` keeps the top three bits of a byte: it is `32 * (b / 32)`. */
  lemma AndTopThree(b: nat)
    requires b < 256
    ensures And(b, 0xe0) == 32 * (b / 32)
  {
    var b1 := b / 2;
    var b2 := b1 / 2;
    var b3 := b2 / 2;
    var b4 := b3 / 2;
    var b5 := b4 / 2;
    AndEvenMask(b, 0xe0);
    AndEvenMask(b1, 0x70);
    AndEvenMask(b2, 0x38);
    AndEvenMask(b3, 0x1c);
    AndEvenMask(b4, 0x0e);
    HalveFive(b);
    assert Pow2(3) == 8;
    AndLowOnes(b5, 3);
  }

  /** Masking with `0xe0` ignores the low five bits: `0xe0 .. 0xff` all keep `0xe0`. */
  lemma TopBitsKept(low: nat)
    requires low < 32
    ensures And(0xe0 + low, 0xe0) == 0xe0
  {
    var b := 0xe0 + low;
    AndTopThree(b);
    assert b / 32 == 7;
  }

  /** A byte below `0xe0` lacks one of the top three bits. */
  lemma TopBitsMissing(b: nat)
    requires b < 0xe0
    ensures And(b, 0xe0) != 0xe0
  {
    AndTopThree(b);
    assert b / 32 < 7;
  }
}
