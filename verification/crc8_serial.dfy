/**
  An independent reference for the CRC-8 engine: bit-serial modulo-2
  division by the generator polynomial, with the message bits fed in at the
  top of the register one at a time, most significant bit of each byte first.

  Per message bit the divisor is subtracted (XOR 0x07 after the shift)
  exactly when the bit leaving the register differs from the incoming message
  bit.  The byte-wise loop of `crc8_checksum` instead XORs all eight message
  bits into the register first and then shifts eight times; the lemmas below
  show that the two orders of work give the same register for every input.
 */
module Crc8BitSerial {
  import opened Crc8Engine

  /** The first `n` bits of `rest`, most significant first, read by
      shifting them one at a time past the top of the byte. */
  function TopBits(rest: bv8, n: nat): (bits: seq<bool>)
    ensures |bits| == n
    decreases n
  {
    if n == 0 then [] else [rest & 0x80 != 0] + TopBits(rest << 1, n - 1)
  }

  /** `rest` shifted left `n` places, one place at a time. */
  function ShiftOut(rest: bv8, n: nat): bv8
    decreases n
  {
    if n == 0 then rest else ShiftOut(rest << 1, n - 1)
  }

  /** The bits of a byte, most significant first. */
  function ByteBits(b: bv8): (bits: seq<bool>)
    ensures |bits| == 8
  {
    TopBits(b, 8)
  }

  /** The bits of a message in transmission order. */
  function MessageBits(data: seq<bv8>): (bits: seq<bool>)
    ensures |bits| == 8 * |data|
    decreases |data|
  {
    if |data| == 0 then [] else ByteBits(data[0]) + MessageBits(data[1..])
  }

  /** One division step with the next message bit fed in at the top: the
      register is multiplied by x, and the divisor is subtracted when the
      bit leaving the register differs from the incoming bit.  The
      subtraction touches only the three low bits, and the lowest bit of the
      result records whether it happened. */
  function FeedBit(reg: bv8, bit: bool): (r: bv8)
    ensures r & 0xF8 == (reg << 1) & 0xF8
    ensures (r & 0x01 != 0) == ((reg & 0x80 != 0) != bit)
  {
    if (reg & 0x80 != 0) != bit then (reg << 1) ^ Poly else reg << 1
  }

  /** The remainder register after dividing in `bits`, starting from `reg`. */
  function Divide(reg: bv8, bits: seq<bool>): bv8
    decreases |bits|
  {
    if |bits| == 0 then reg else Divide(FeedBit(reg, bits[0]), bits[1..])
  }

  /** Division of a concatenation continues from the first part's remainder. */
  lemma {:induction false} DivideAppend(reg: bv8, a: seq<bool>, b: seq<bool>)
    ensures Divide(reg, a + b) == Divide(Divide(reg, a), b)
    decreases |a|
  {
    if |a| == 0 {
      assert a + b == b;
    } else {
      assert (a + b)[0] == a[0];
      assert (a + b)[1..] == a[1..] + b;
      DivideAppend(FeedBit(reg, a[0]), a[1..], b);
    }
  }

  /** One bit step of the byte-wise register `t ^ rest`, where `rest` holds
      the message bits not yet brought down and `bit` is the first of them,
      is one division step of `t`. */
  lemma StepAgrees(t: bv8, rest: bv8, bit: bool)
    requires bit == (rest & 0x80 != 0)
    ensures BitStep(t ^ rest) == FeedBit(t, bit) ^ (rest << 1)
  {
    assert (t ^ rest) << 1 == (t << 1) ^ (rest << 1);
    assert ((t ^ rest) & 0x80 != 0) == ((t & 0x80 != 0) != (rest & 0x80 != 0));
  }

  /** Bit steps may be peeled off the front as well as the back. */
  lemma {:induction false} StepsFront(c: bv8, n: nat)
    ensures Steps(c, n + 1) == Steps(BitStep(c), n)
  {
    if n > 0 {
      StepsFront(c, n - 1);
    }
  }

  /** After `n` bit steps of the byte-wise register `t ^ rest`, the first
      `n` bits of `rest` have been divided into `t` and the rest of them
      are still waiting, shifted up. */
  lemma {:induction false} StepsAreDivision(t: bv8, rest: bv8, n: nat)
    ensures Steps(t ^ rest, n) == Divide(t, TopBits(rest, n)) ^ ShiftOut(rest, n)
    decreases n
  {
    if n > 0 {
      var bit := rest & 0x80 != 0;
      var next := FeedBit(t, bit);
      var shifted := rest << 1;
      assert Steps(t ^ rest, n) == Steps(next ^ shifted, n - 1) by {
        StepsFront(t ^ rest, n - 1);
        StepAgrees(t, rest, bit);
      }
      assert Steps(next ^ shifted, n - 1)
          == Divide(next, TopBits(shifted, n - 1)) ^ ShiftOut(shifted, n - 1) by {
        StepsAreDivision(next, shifted, n - 1);
      }
      assert Divide(t, TopBits(rest, n)) == Divide(next, TopBits(shifted, n - 1)) by {
        DivideCons(t, bit, TopBits(shifted, n - 1));
      }
    } else {
      DivideCons(t, false, []);
    }
  }

  /** Dividing in nothing, or one bit and then the rest. */
  lemma DivideCons(t: bv8, bit: bool, bits: seq<bool>)
    ensures Divide(t, []) == t
    ensures Divide(t, [bit] + bits) == Divide(FeedBit(t, bit), bits)
  {
    assert ([bit] + bits)[1..] == bits;
  }

  /** Eight single-place shifts clear a byte. */
  lemma ShiftOutByte(b: bv8)
    ensures ShiftOut(b, 8) == 0
  {
    var b1 := b << 1;
    var b2 := b1 << 1;
    var b3 := b2 << 1;
    var b4 := b3 << 1;
    var b5 := b4 << 1;
    var b6 := b5 << 1;
    var b7 := b6 << 1;
    assert b7 << 1 == 0;
    assert ShiftOut(b7, 1) == 0;
    assert ShiftOut(b6, 2) == 0;
    assert ShiftOut(b5, 3) == 0;
    assert ShiftOut(b4, 4) == 0;
    assert ShiftOut(b3, 5) == 0;
    assert ShiftOut(b2, 6) == 0;
    assert ShiftOut(b1, 7) == 0;
  }

  /** For one byte, the byte-wise update and bit-serial division agree. */
  lemma UpdateIsDivision(reg: bv8, b: bv8)
    ensures Update(reg, b) == Divide(reg, ByteBits(b))
  {
    UpdateLeavesShiftedByte(reg, b);
    ShiftOutByte(b);
    CancelZero(Update(reg, b), Divide(reg, ByteBits(b)), ShiftOut(b, 8));
  }

  /** After the eight steps of one byte, all its bits have been divided in
      and what is left of the byte itself has been shifted out. */
  lemma UpdateLeavesShiftedByte(reg: bv8, b: bv8)
    ensures Update(reg, b) == Divide(reg, ByteBits(b)) ^ ShiftOut(b, 8)
  {
    StepsAreDivision(reg, b, 8);
  }

  /** XOR with a cleared byte changes nothing. */
  lemma CancelZero(u: bv8, d: bv8, z: bv8)
    requires u == d ^ z && z == 0
    ensures u == d
  {
  }

  /** The byte-wise algorithm computes the bit-serial division remainder of
      every message, from every starting register. */
  lemma {:induction false} Crc8IsDivision(reg: bv8, data: seq<bv8>)
    ensures Crc8From(reg, data) == Divide(reg, MessageBits(data))
    decreases |data|
  {
    if |data| > 0 {
      UpdateIsDivision(reg, data[0]);
      DivideAppend(reg, ByteBits(data[0]), MessageBits(data[1..]));
      Crc8IsDivision(Update(reg, data[0]), data[1..]);
    }
  }
}
