/** Single-bit operations on the ATmega32A's 8-bit I/O registers (PORTx,
    PINx, DDRx), written the way the C code writes them: a mask `1 << k`,
    then `|=`, `&= ~` or `^=`.

    On the AVR, `1 << k` is computed in a 16-bit `int`, so for a bit number
    k in 8..15 the mask has no bit inside the byte and the register operation
    leaves the byte as it was; shifting by 16 or more is undefined in C,
    hence the `k < 16` preconditions. Strictly, `1 << 15` is undefined too
    (it overflows the signed 16-bit `int`, C11 6.5.7p4); the model assumes
    what avr-gcc produces, a mask with no bit inside the byte. */
module Bits {

  /** Bit `k` of `b` is 1. Bits beyond the byte read as 0. */
  predicate TestBit(b: bv8, k: nat)
  {
    k < 8 && b & Weight(k) != 0
  }

  /** The byte whose only 1 bit is bit `k`, for `k < 8`, written out so
      that bit reasoning stays on constants. */
  function Weight(k: nat): bv8
    requires k < 8
  {
    match k
    case 0 => 0x01 case 1 => 0x02 case 2 => 0x04 case 3 => 0x08
    case 4 => 0x10 case 5 => 0x20 case 6 => 0x40 case _ => 0x80
  }

  /** `1 << k` as seen by an 8-bit register: exactly bit `k` set. */
  function Mask(k: nat): (m: bv8)
    requires k < 16
    ensures forall j: nat :: j < 8 ==> (TestBit(m, j) <==> j == k)
  {
    if k < 8 then Weight(k) else 0
  }

  /** The table agrees with the C shift `1 << k` on every bit number of the byte. */
  lemma MaskIsShift(k: nat)
    requires k < 8
    ensures Mask(k) == (1 as bv8) << k
  {
  }

  /** `b | (1 << k)`: sets bit `k`, every other bit keeps its value. */
  function SetBit(b: bv8, k: nat): (r: bv8)
    requires k < 16
    ensures forall j: nat :: j < 8 ==> (TestBit(r, j) <==> j == k || TestBit(b, j))
  {
    OrBits(b, Mask(k));
    b | Mask(k)
  }

  /** `b & ~(1 << k)`: clears bit `k`, every other bit keeps its value. */
  function ClearBit(b: bv8, k: nat): (r: bv8)
    requires k < 16
    ensures forall j: nat :: j < 8 ==> (TestBit(r, j) <==> j != k && TestBit(b, j))
  {
    AndNotBits(b, Mask(k));
    b & !Mask(k)
  }

  /** `b ^ (1 << k)`: flips bit `k`, every other bit keeps its value. */
  function ToggleBit(b: bv8, k: nat): (r: bv8)
    requires k < 16
    ensures forall j: nat :: j < 8 ==> (TestBit(r, j) <==> (j == k) != TestBit(b, j))
  {
    XorBits(b, Mask(k));
    b ^ Mask(k)
  }

  /** Bit by bit, `|` is "either". */
  lemma OrBits(x: bv8, y: bv8)
    ensures forall j: nat :: j < 8 ==> (TestBit(x | y, j) <==> TestBit(x, j) || TestBit(y, j))
  {
  }

  /** Bit by bit, `x & ~y` is "in `x` and not in `y`". */
  lemma AndNotBits(x: bv8, y: bv8)
    ensures forall j: nat :: j < 8 ==> (TestBit(x & !y, j) <==> TestBit(x, j) && !TestBit(y, j))
  {
  }

  /** Bit by bit, `^` is "exactly one of the two". */
  lemma XorBits(x: bv8, y: bv8)
    ensures forall j: nat :: j < 8 ==> (TestBit(x ^ y, j) <==> TestBit(x, j) != TestBit(y, j))
  {
  }

  /** Toggling the same bit twice restores the original byte. */
  lemma ToggleTwice(b: bv8, k: nat)
    requires k < 16
    ensures ToggleBit(ToggleBit(b, k), k) == b
  {
  }

  /** A memory-mapped 8-bit I/O register, reached in the C code through a
      `volatile unsigned char*`. */
  class Register {
    var value: bv8

    constructor (v: bv8)
      ensures value == v
    {
      value := v;
    }
  }
}
