/**
  The uses of `&` walked through in bitwise_and.cpp.

  Values the program declares as `uint32_t` or `uint8_t` and only shifts
  and masks are modelled as bit-vectors (`bv32`, `bv8`).  Values declared
  `int`, and every expression in which C++ promotes `uint8_t` or `char`
  operands to `int`, use the 32-bit two's-complement `Int32` of `CppInt`,
  whose bitwise operators act on the unsigned bit pattern.
 */
module BitwiseAnd {
  import opened CppInt

  // ---------------------------------------------------------------------
  // Colour channels packed into one 32-bit word
  // ---------------------------------------------------------------------

  /** The four 8-bit channels of an ARGB colour. */
  datatype Argb = Argb(alpha: bv8, red: bv8, green: bv8, blue: bv8)

  /** Shift each channel down and mask it with 0xFF. */
  function UnpackArgb(color: bv32): (c: Argb)
    ensures c.blue as bv32 == color & 0xFF
    ensures c.alpha as bv32 == color >> 24
  {
    Argb(((color >> 24) & 0xFF) as bv8, ((color >> 16) & 0xFF) as bv8,
         ((color >> 8) & 0xFF) as bv8, (color & 0xFF) as bv8)
  }

  /** The inverse direction: each channel shifted into its place. */
  function PackArgb(c: Argb): bv32 {
    (c.alpha as bv32 << 24) | (c.red as bv32 << 16) | (c.green as bv32 << 8) | c.blue as bv32
  }

  /** Unpacking loses nothing: packing the channels rebuilds the word. */
  lemma PackUnpack(color: bv32)
    ensures PackArgb(UnpackArgb(color)) == color
  {
  }

  /** Packing loses nothing: unpacking gives back every channel. */
  lemma UnpackPack(c: Argb)
    ensures UnpackArgb(PackArgb(c)) == c
  {
  }

  /** The two colours of the walk-through. */
  lemma ColorExamples()
    ensures UnpackArgb(0xAABBCCDD) == Argb(0xAA, 0xBB, 0xCC, 0xDD)
    ensures UnpackArgb(0x80FF00FF).alpha == 0x80
  {
  }

  // ---------------------------------------------------------------------
  // A protocol byte: [7:6] type, [5:3] address, [2:0] data
  // ---------------------------------------------------------------------

  datatype PacketFields = PacketFields(kind: bv8, address: bv8, payload: bv8)

  /** The ranges the three fields' widths allow. */
  predicate ValidFields(f: PacketFields) {
    f.kind < 4 && f.address < 8 && f.payload < 8
  }

  /** Shift each field down and mask it to its width. */
  function DecodePacket(packet: bv8): (f: PacketFields)
    ensures ValidFields(f)
  {
    PacketFields((packet >> 6) & 0x03, (packet >> 3) & 0x07, packet & 0x07)
  }

  /** The inverse direction: each field shifted into its place. */
  function EncodePacket(f: PacketFields): bv8
    requires ValidFields(f)
  {
    (f.kind << 6) | (f.address << 3) | f.payload
  }

  /** Every byte is the encoding of its fields. */
  lemma EncodeDecode(packet: bv8)
    ensures EncodePacket(DecodePacket(packet)) == packet
  {
  }

  /** Fields within their widths survive encoding. */
  lemma DecodeEncode(f: PacketFields)
    requires ValidFields(f)
    ensures DecodePacket(EncodePacket(f)) == f
  {
  }

  /** 0b10110110 is type 2, address 6, data 6. */
  lemma PacketExample()
    ensures DecodePacket(0xB6) == PacketFields(2, 6, 6)
  {
  }

  // ---------------------------------------------------------------------
  // Modulo by a power of two
  // ---------------------------------------------------------------------

  /** `index & 7`. */
  function WrapIndex(index: Int32): (w: Int32)
    ensures 0 <= w < 8
    ensures w as int == index as int % 8
  {
    var w := Bitwise(AndBit, index, 7);
    assert Unsigned(w) == Unsigned(index) % 8 by {
      assert Pow2(3) == 8;
      AndLowMask(Unsigned(index), 3);
    }
    PatternResidue(index);
    SignedUnsigned(w);
    w
  }

  /** The bit pattern of `x` and `x` itself agree modulo 2, 8 and 256,
      which all divide 2^32. */
  lemma PatternResidue(x: Int32)
    ensures Unsigned(x) % 2 == x as int % 2
    ensures Unsigned(x) % 8 == x as int % 8
    ensures Unsigned(x) % 256 == x as int % 256
  {
    if x < 0 {
      assert Unsigned(x) == x as int + 0x1_0000_0000;
      ModulusResidues(x as int);
    }
  }

  /** Adding 2^32 keeps the residues modulo 2, 8 and 256. */
  lemma ModulusResidues(v: int)
    ensures (v + 0x1_0000_0000) % 2 == v % 2
    ensures (v + 0x1_0000_0000) % 8 == v % 8
    ensures (v + 0x1_0000_0000) % 256 == v % 256
  {
    assert v + 0x1_0000_0000 == 2 * (v / 2 + 0x8000_0000) + v % 2;
    assert v + 0x1_0000_0000 == 8 * (v / 8 + 0x2000_0000) + v % 8;
    assert v + 0x1_0000_0000 == 256 * (v / 256 + 0x100_0000) + v % 256;
  }

  /** `index & 7` is the C++ `index % 8` for a non-negative index, and for a
      negative one exactly when that is a multiple of 8 (the C++ remainder
      of a negative number is never positive). */
  lemma WrapIndexIsRemainder(index: Int32)
    ensures WrapIndex(index) as int == Remainder(index as int, 8)
        <==> index >= 0 || index as int % 8 == 0
  {
    var a := index as int;
    if a >= 0 {
      assert Quot(a, 8) == a / 8;
    } else {
      assert Quot(a, 8) == -((-a) / 8);
      assert Remainder(a, 8) == -((-a) % 8);
    }
  }

  /** The buffer index of the walk-through. */
  lemma WrapExample()
    ensures WrapIndex(13) == 5
  {
  }

  // ---------------------------------------------------------------------
  // ASCII case
  // ---------------------------------------------------------------------

  predicate IsAsciiLower(c: bv8) { 0x61 <= c <= 0x7A }
  predicate IsAsciiUpper(c: bv8) { 0x41 <= c <= 0x5A }

  /** `c & 0xDF`, clearing bit 5. */
  function ToUpper(c: bv8): (u: bv8)
    ensures IsAsciiLower(c) ==> u == c - 0x20
    ensures IsAsciiUpper(c) ==> u == c
    ensures IsAsciiUpper(u) <==> IsAsciiLower(c) || IsAsciiUpper(c)
  {
    c & 0xDF
  }

  /** Converting twice is converting once. */
  lemma ToUpperIdempotent(c: bv8)
    ensures ToUpper(ToUpper(c)) == ToUpper(c)
  {
  }

  /** The mask is no case conversion for other characters: it turns the
      digit '1' into a control code, and 'g' into 'G'. */
  lemma ToUpperExamples()
    ensures ToUpper(0x67) == 0x47
    ensures ToUpper(0x31) == 0x11
  {
  }

  // ---------------------------------------------------------------------
  // Parity and powers of two
  // ---------------------------------------------------------------------

  /** `num & 1` taken as a truth value. */
  function IsOdd(num: Int32): (odd: bool)
    ensures odd <==> num as int % 2 == 1
  {
    var low := Bitwise(AndBit, num, 1);
    assert Unsigned(low) == Unsigned(num) % 2 by {
      assert Pow2(1) == 2;
      AndLowMask(Unsigned(num), 1);
    }
    PatternResidue(num);
    SignedUnsigned(low);
    low != 0
  }

  /** `n && !(n & (n - 1))`.  `n - 1` overflows only for the least `int`. */
  function PowerOfTwoTest(n: Int32): (r: bool)
    requires n as int != MinInt32
    ensures r <==> n > 0 && IsPowerOfTwo(n as int)
  {
    var below := (n as int - 1) as Int32;
    if n == 0 then false
    else
      PowerOfTwoCases(n, below);
      Bitwise(AndBit, n, below) == 0
  }

  /** The arithmetic behind `PowerOfTwoTest`: for a positive `n` the test
      is the one on natural numbers, and a negative `n` and `n - 1` share
      the sign bit, so their AND is never zero. */
  lemma PowerOfTwoCases(n: Int32, below: Int32)
    requires n != 0 && below as int == n as int - 1
    ensures Bitwise(AndBit, n, below) == 0 <==> n > 0 && IsPowerOfTwo(n as int)
  {
    var both := Bitwise(AndBit, n, below);
    SignedUnsigned(both);
    if n > 0 {
      AndPredecessor(n as int);
    } else {
      Pow2Is32Bits();
      TopBit(Unsigned(n), 31);
      TopBit(Unsigned(below), 31);
      BitOfBitwise(AndBit, Unsigned(n), Unsigned(below), 31);
      BitOfZero(31);
    }
  }

  /** 42 is even and 64 is a power of two. */
  lemma MathExamples()
    ensures !IsOdd(42)
    ensures PowerOfTwoTest(64)
  {
    assert IsPowerOfTwo(64) by {
      Pow2IsPowerOfTwo(6);
    }
  }

  // ---------------------------------------------------------------------
  // Masks, single bits and flags
  // ---------------------------------------------------------------------

  /** `value & 0x00FF`. */
  function LowByte(value: Int32): (b: Int32)
    ensures 0 <= b < 256
    ensures b as int == value as int % 256
  {
    var b := Bitwise(AndBit, value, 0xFF);
    assert Unsigned(b) == Unsigned(value) % 256 by {
      Pow2Is32Bits();
      AndLowMask(Unsigned(value), 8);
    }
    PatternResidue(value);
    SignedUnsigned(b);
    b
  }

  /** `1 << k`; shifting into or past the sign bit is excluded. */
  function Shl1(k: nat): (m: Int32)
    requires k < 31
    ensures Unsigned(m) == Pow2(k)
  {
    Pow2Is32Bits();
    Pow2Below(k, 31);
    Pow2(k) as Int32
  }

  /** `value & mask` taken as a truth value. */
  predicate HasFlag(value: Int32, mask: Int32) {
    Bitwise(AndBit, value, mask) != 0
  }

  /** `value & (1 << k)` is true exactly when bit `k` of `value` is set. */
  lemma TestBit(value: Int32, k: nat)
    requires k < 31
    ensures HasFlag(value, Shl1(k)) <==> Bit(Unsigned(value), k)
  {
    var both := Bitwise(AndBit, value, Shl1(k));
    AndPow2(Unsigned(value), k);
    SignedUnsigned(both);
  }

  /** `value & ~(1 << k)`. */
  function ClearBit(value: Int32, k: nat): (r: Int32)
    requires k < 31
    ensures forall j :: 0 <= j < 32 ==> Bit(Unsigned(r), j) == (Bit(Unsigned(value), j) && j != k)
  {
    var mask := BitNot(Shl1(k));
    var r := Bitwise(AndBit, value, mask);
    forall j | 0 <= j < 32
      ensures Bit(Unsigned(r), j) == (Bit(Unsigned(value), j) && j != k)
    {
      ClearBitAt(value, k, j);
    }
    r
  }

  /** Bit `j` of `value & ~(1 << k)`. */
  lemma ClearBitAt(value: Int32, k: nat, j: nat)
    requires k < 31 && j < 32
    ensures Bit(Unsigned(Bitwise(AndBit, value, BitNot(Shl1(k)))), j)
         == (Bit(Unsigned(value), j) && j != k)
  {
    Pow2Is32Bits();
    Pow2Below(k, 32);
    BitOfBitwise(AndBit, Unsigned(value), Unsigned(BitNot(Shl1(k))), j);
    BitOfComplement(Pow2(k), 32, j);
    BitOfPow2(k, j);
  }

  /** Clearing a set bit subtracts its weight; clearing a clear bit changes
      nothing. */
  lemma ClearBitValue(value: Int32, k: nat)
    requires k < 31
    ensures Unsigned(ClearBit(value, k))
         == if Bit(Unsigned(value), k) then Unsigned(value) - Pow2(k) else Unsigned(value)
  {
    var u := Unsigned(value);
    var r := ClearBit(value, k);
    Pow2Is32Bits();
    if Bit(u, k) {
      BitSetIsLarge(u, k);
      forall j | 0 <= j < 32
        ensures Bit(u - Pow2(k), j) == Bit(Unsigned(r), j)
      {
        BitOfMinusPow2(u, k, j);
      }
      BitsDetermine(u - Pow2(k), Unsigned(r), 32);
    } else {
      BitsDetermine(u, Unsigned(r), 32);
    }
  }

  /** A set made of two flags holds exactly those two. */
  lemma TwoFlags(i: nat, j: nat, k: nat)
    requires i < 31 && j < 31 && k < 31
    ensures HasFlag(Bitwise(OrBit, Shl1(i), Shl1(j)), Shl1(k)) <==> k == i || k == j
  {
    TestBit(Bitwise(OrBit, Shl1(i), Shl1(j)), k);
    BitOfBitwise(OrBit, Pow2(i), Pow2(j), k);
    BitOfPow2(i, k);
    BitOfPow2(j, k);
  }

  /** The masks of the walk-through: low byte 0xCD of 0xABCD, bit 3 set,
      0xABC9 after clearing bit 2. */
  lemma MaskExamples()
    ensures LowByte(0xABCD) == 0xCD
    ensures HasFlag(0xABCD, Shl1(3))
    ensures ClearBit(0xABCD, 2) == 0xABC9
  {
    assert Pow2(3) == 8 && Pow2(2) == 4;
    assert Bit(0xABCD, 3) by {
      assert 0xABCD / 2 / 2 / 2 == 0x1579;
    }
    TestBit(0xABCD, 3);
    assert Bit(0xABCD, 2) by {
      assert 0xABCD / 2 / 2 == 0x2AF3;
    }
    ClearBitValue(0xABCD, 2);
    SignedUnsigned(ClearBit(0xABCD, 2));
  }

  /** The flag sets of the walk-through: ALIVE | VISIBLE is 0x3,
      FEATURE_A | FEATURE_C and FLAG_A | FLAG_C are 0x5, READ | WRITE is
      0x6, each holding its two flags and not the third. */
  lemma FlagExamples()
    ensures Bitwise(OrBit, Shl1(0), Shl1(1)) == 3
    ensures Bitwise(OrBit, Shl1(0), Shl1(2)) == 5
    ensures Bitwise(OrBit, Shl1(2), Shl1(1)) == 6
    ensures !HasFlag(Bitwise(OrBit, Shl1(0), Shl1(1)), Shl1(2))
    ensures !HasFlag(Bitwise(OrBit, Shl1(0), Shl1(2)), Shl1(1))
    ensures !HasFlag(Bitwise(OrBit, Shl1(2), Shl1(1)), Shl1(0))
  {
    assert BitwiseNat(OrBit, 0, 1) == 1;
    assert BitwiseNat(OrBit, 1, 2) == 3;
    assert BitwiseNat(OrBit, 0, 2) == 2;
    assert BitwiseNat(OrBit, 1, 4) == 5;
    assert BitwiseNat(OrBit, 2, 1) == 3;
    assert BitwiseNat(OrBit, 4, 2) == 6;
    SignedUnsigned(Bitwise(OrBit, Shl1(0), Shl1(1)));
    SignedUnsigned(Bitwise(OrBit, Shl1(0), Shl1(2)));
    SignedUnsigned(Bitwise(OrBit, Shl1(2), Shl1(1)));
    TwoFlags(0, 1, 2);
    TwoFlags(0, 2, 1);
    TwoFlags(2, 1, 0);
  }
}
