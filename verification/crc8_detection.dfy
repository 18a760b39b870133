/**
  Error-detection guarantees of the CRC-8 engine.

  Every bit step is linear over GF(2) (`BitStep(a ^ b) == BitStep(a) ^
  BitStep(b)`), so the checksum of a corrupted message is the checksum of the
  original XOR the checksum of the error pattern alone.  A corruption goes
  unnoticed exactly when the error pattern itself checksums to 0x00; the
  lemmas below show that this never happens for the error classes the
  documentation of crc-8.cpp promises to catch.
 */
module Crc8Detection {
  import opened Crc8Engine

  // ---------------------------------------------------------------------
  // Linearity
  // ---------------------------------------------------------------------

  /** A bit step of a sum of two registers is the sum of their bit steps. */
  lemma BitStepLinear(a: bv8, b: bv8)
    ensures BitStep(Add(a, b)) == Add(BitStep(a), BitStep(b))
  {
    BitStepXor(a, b);
  }

  /** `BitStepLinear` for the XOR operator itself: shifting distributes over
      XOR, the MSB of an XOR is the XOR of the MSBs, and a polynomial
      subtracted from both sides cancels. */
  lemma BitStepXor(a: bv8, b: bv8)
    ensures BitStep(a ^ b) == BitStep(a) ^ BitStep(b)
  {
    assert (a ^ b) << 1 == (a << 1) ^ (b << 1);
    assert ((a ^ b) & 0x80 != 0) == ((a & 0x80 != 0) != (b & 0x80 != 0));
  }

  lemma {:induction false} StepsLinear(a: bv8, b: bv8, n: nat)
    ensures Steps(Add(a, b), n) == Add(Steps(a, n), Steps(b, n))
  {
    if n > 0 {
      StepsLinear(a, b, n - 1);
      BitStepLinear(Steps(a, n - 1), Steps(b, n - 1));
    }
  }

  /** Running two register/byte pairs together is XOR-ing their results. */
  lemma UpdateLinear(r1: bv8, b1: bv8, r2: bv8, b2: bv8)
    ensures Update(Add(r1, r2), Add(b1, b2)) == Add(Update(r1, b1), Update(r2, b2))
  {
    StepsOfRegrouped(r1, b1, r2, b2, 8);
  }

  /** `StepsLinear` for a register that is the XOR of four values. */
  lemma StepsOfRegrouped(r1: bv8, b1: bv8, r2: bv8, b2: bv8, n: nat)
    ensures Steps(Add(r1, r2) ^ Add(b1, b2), n) == Add(Steps(r1 ^ b1, n), Steps(r2 ^ b2, n))
  {
    XorRegroup(r1, b1, r2, b2);
    StepsLinear(r1 ^ b1, r2 ^ b2, n);
  }

  lemma XorRegroup(r1: bv8, b1: bv8, r2: bv8, b2: bv8)
    ensures Add(r1, r2) ^ Add(b1, b2) == Add(r1 ^ b1, r2 ^ b2)
  {
  }

  /** Running the byte loop on two registers and two messages and XOR-ing
      the results is running it once on the XORed register and message. */
  predicate XorCombines(r1: bv8, d1: seq<bv8>, r2: bv8, d2: seq<bv8>)
    requires |d1| == |d2|
  {
    Crc8From(Add(r1, r2), Xor(d1, d2)) == Add(Crc8From(r1, d1), Crc8From(r2, d2))
  }

  /** The byte loop is linear in the starting register and the data. */
  lemma Crc8FromLinear(r1: bv8, d1: seq<bv8>, r2: bv8, d2: seq<bv8>)
    requires |d1| == |d2|
    ensures Crc8From(r1 ^ r2, Xor(d1, d2)) == Crc8From(r1, d1) ^ Crc8From(r2, d2)
  {
    XorCombinesAlways(r1, d1, r2, d2);
  }

  lemma {:induction false} XorCombinesAlways(r1: bv8, d1: seq<bv8>, r2: bv8, d2: seq<bv8>)
    requires |d1| == |d2|
    ensures XorCombines(r1, d1, r2, d2)
    decreases |d1|
  {
    if |d1| > 0 {
      XorCombinesAlways(Update(r1, d1[0]), d1[1..], Update(r2, d2[0]), d2[1..]);
      LinearStep(r1, d1, r2, d2);
    }
  }

  /** The inductive step: if the bytes after the first combine linearly,
      so do all of them, because the first byte's update does. */
  lemma LinearStep(r1: bv8, d1: seq<bv8>, r2: bv8, d2: seq<bv8>)
    requires |d1| == |d2| > 0
    requires XorCombines(Update(r1, d1[0]), d1[1..], Update(r2, d2[0]), d2[1..])
    ensures XorCombines(r1, d1, r2, d2)
  {
    XorFront(d1, d2);
    UpdateLinearAt(r1, d1[0], r2, d2[0], Xor(d1, d2)[0]);
  }

  /** `UpdateLinear` with the XORed byte given by name. */
  lemma UpdateLinearAt(r1: bv8, b1: bv8, r2: bv8, b2: bv8, b: bv8)
    requires b == Add(b1, b2)
    ensures Update(Add(r1, r2), b) == Add(Update(r1, b1), Update(r2, b2))
  {
    UpdateLinear(r1, b1, r2, b2);
  }

  /** The first byte and the rest of a byte-wise XOR. */
  lemma XorFront(d1: seq<bv8>, d2: seq<bv8>)
    requires |d1| == |d2| > 0
    ensures Xor(d1, d2)[0] == Add(d1[0], d2[0])
    ensures Xor(d1, d2)[1..] == Xor(d1[1..], d2[1..])
  {
  }

  /** The checksum of corrupted data is the original checksum XOR the
      checksum of the error pattern. */
  lemma Crc8OfCorruption(data: seq<bv8>, e: seq<bv8>)
    requires |e| == |data|
    ensures Crc8(Xor(data, e)) == Crc8(data) ^ Crc8(e)
  {
    Crc8FromLinear(Init, data, Init, e);
  }

  // ---------------------------------------------------------------------
  // A nonzero register never returns to zero
  // ---------------------------------------------------------------------

  lemma BitStepZero(c: bv8)
    ensures BitStep(c) == 0 <==> c == 0
  {
  }

  lemma {:induction false} StepsZero(c: bv8, n: nat)
    ensures Steps(c, n) == 0 <==> c == 0
  {
    if n > 0 {
      StepsZero(c, n - 1);
      BitStepZero(Steps(c, n - 1));
    }
  }

  /** Each byte update is injective in the register: two different
      registers stay different after the same byte. */
  lemma UpdateInjective(r1: bv8, r2: bv8, b: bv8)
    ensures Update(r1, b) == Update(r2, b) <==> r1 == r2
  {
    UpdateLinear(r1, b, r2, b);
    assert (r1 ^ r2) ^ (b ^ b) == r1 ^ r2;
    StepsZero(r1 ^ r2, 8);
  }

  /** The same bytes fed into two registers give equal results exactly when
      the registers were equal. */
  lemma {:induction false} Crc8FromInjective(r1: bv8, r2: bv8, data: seq<bv8>)
    ensures Crc8From(r1, data) == Crc8From(r2, data) <==> r1 == r2
    decreases |data|
  {
    if |data| > 0 {
      UpdateInjective(r1, r2, data[0]);
      Crc8FromInjective(Update(r1, data[0]), Update(r2, data[0]), data[1..]);
    }
  }

  /** Any nonzero error confined to one byte changes the register. */
  lemma {:induction false} SingleByteErrorFrom(reg: bv8, data: seq<bv8>, i: nat, m: bv8)
    requires i < |data| && m != 0
    ensures Crc8From(reg, data[i := data[i] ^ m]) != Crc8From(reg, data)
    decreases i
  {
    if i == 0 {
      FirstByteError(reg, data, m);
    } else {
      var next := Update(reg, data[0]);
      var rest := data[1..][i - 1 := data[i] ^ m];
      assert Crc8From(reg, data[i := data[i] ^ m]) == Crc8From(next, rest) by {
        var bad := data[i := data[i] ^ m];
        assert bad[0] == data[0];
        assert bad[1..] == rest;
      }
      SingleByteErrorFrom(next, data[1..], i - 1, m);
    }
  }

  /** An error in the first byte is an error in the register that byte
      meets, which no later byte can undo. */
  lemma FirstByteError(reg: bv8, data: seq<bv8>, m: bv8)
    requires |data| > 0 && m != 0
    ensures Crc8From(reg, data[0 := data[0] ^ m]) != Crc8From(reg, data)
  {
    var b := data[0];
    var bad := data[0 := b ^ m];
    assert bad[0] == b ^ m && bad[1..] == data[1..];
    ErrorMovesIntoRegister(reg, b, m);
    UpdateInjective(reg ^ m, reg, b);
    Crc8FromInjective(Update(reg ^ m, b), Update(reg, b), data[1..]);
  }

  /** Flipping bits of the byte is flipping the same bits of the register
      it is XORed into. */
  lemma ErrorMovesIntoRegister(reg: bv8, b: bv8, m: bv8)
    ensures Update(reg, b ^ m) == Update(reg ^ m, b)
  {
    assert reg ^ (b ^ m) == (reg ^ m) ^ b;
  }

  /** Corrupting any bits of a single byte is always detected. */
  lemma SingleByteErrorDetected(data: seq<bv8>, i: nat, m: bv8)
    requires i < |data| && m != 0
    ensures Crc8(data[i := data[i] ^ m]) != Crc8(data)
  {
    SingleByteErrorFrom(Init, data, i, m);
  }

  /** Flipping any one bit of the message is always detected. */
  lemma SingleBitErrorDetected(data: seq<bv8>, i: nat, k: nat)
    requires i < |data| && k < 8
    ensures Crc8(data[i := data[i] ^ (1 << k)]) != Crc8(data)
  {
    SingleByteErrorDetected(data, i, 1 << k);
  }

  // ---------------------------------------------------------------------
  // Odd numbers of bit errors
  // ---------------------------------------------------------------------

  /** Whether `c` has the bit selected by the single-bit `mask`, as a count. */
  function BitSet(c: bv8, mask: bv8): nat {
    if c & mask != 0 then 1 else 0
  }

  /** The number of set bits of a byte. */
  function Popcount(c: bv8): nat {
    BitSet(c, 0x01) + BitSet(c, 0x02) + BitSet(c, 0x04) + BitSet(c, 0x08)
    + BitSet(c, 0x10) + BitSet(c, 0x20) + BitSet(c, 0x40) + BitSet(c, 0x80)
  }

  /** The number of bits an error pattern flips (or a message has set). */
  function Weight(e: seq<bv8>): nat
    decreases |e|
  {
    if |e| == 0 then 0 else Popcount(e[0]) + Weight(e[1..])
  }

  lemma BitXor(a: bv8, b: bv8, m: bv8)
    requires m != 0 && m & (m - 1) == 0
    ensures BitSet(a ^ b, m) + 2 * BitSet(a & b, m) == BitSet(a, m) + BitSet(b, m)
  {
  }

  /** XOR-ing two bytes sets as many bits as they have together, less the
      pairs that cancel; in particular it adds their parities. */
  lemma PopcountXor(a: bv8, b: bv8)
    ensures Popcount(a ^ b) + 2 * Popcount(a & b) == Popcount(a) + Popcount(b)
  {
    BitXor(a, b, 0x01); BitXor(a, b, 0x02); BitXor(a, b, 0x04); BitXor(a, b, 0x08);
    BitXor(a, b, 0x10); BitXor(a, b, 0x20); BitXor(a, b, 0x40); BitXor(a, b, 0x80);
  }

  /** A bit step keeps the parity of the register's set bits: the dropped
      MSB and the three bits the polynomial flips change it together or not
      at all. */
  lemma BitStepParity(c: bv8)
    ensures Popcount(BitStep(c)) % 2 == Popcount(c) % 2
  {
    ShiftPopcount(c);
    if c & 0x80 != 0 {
      var d := (c << 1) ^ Poly;
      assert BitStep(c) == d && BitSet(c, 0x80) == 1;
      PopcountXor(c << 1, Poly);
      assert Popcount(Poly) == 3;
      OddFlipsCancel(Popcount(d), Popcount((c << 1) & Poly), Popcount(c << 1), Popcount(c));
    } else {
      assert BitStep(c) == c << 1 && BitSet(c, 0x80) == 0;
    }
  }

  /** Losing one bit and flipping three changes a count by an even amount. */
  lemma OddFlipsCancel(after: nat, common: nat, shifted: nat, before: nat)
    requires after + 2 * common == shifted + 3 && shifted + 1 == before
    ensures after % 2 == before % 2
  {
  }

  /** A left shift loses the MSB and keeps every other set bit. */
  lemma ShiftPopcount(c: bv8)
    ensures Popcount(c << 1) + BitSet(c, 0x80) == Popcount(c)
  {
    var d := c << 1;
    assert BitSet(d, 0x01) == 0 && BitSet(d, 0x02) == BitSet(c, 0x01);
    assert BitSet(d, 0x04) == BitSet(c, 0x02) && BitSet(d, 0x08) == BitSet(c, 0x04);
    assert BitSet(d, 0x10) == BitSet(c, 0x08) && BitSet(d, 0x20) == BitSet(c, 0x10);
    assert BitSet(d, 0x40) == BitSet(c, 0x20) && BitSet(d, 0x80) == BitSet(c, 0x40);
  }

  lemma {:induction false} StepsParity(c: bv8, n: nat)
    ensures Popcount(Steps(c, n)) % 2 == Popcount(c) % 2
  {
    if n > 0 {
      StepsParity(c, n - 1);
      BitStepParity(Steps(c, n - 1));
    }
  }

  /** One byte update adds the byte's bit parity to the register's. */
  lemma UpdateParity(reg: bv8, b: bv8)
    ensures Popcount(Update(reg, b)) % 2 == (Popcount(reg) + Popcount(b)) % 2
  {
    StepsParity(reg ^ b, 8);
    PopcountXor(reg, b);
    XorParity(Popcount(Update(reg, b)), Popcount(reg ^ b), Popcount(reg & b),
              Popcount(reg), Popcount(b));
  }

  /** Counts that agree in parity with a count of XORed bits agree with the
      parity of the two operands' counts together. */
  lemma XorParity(after: nat, xored: nat, common: nat, r: nat, b: nat)
    requires after % 2 == xored % 2
    requires xored + 2 * common == r + b
    ensures after % 2 == (r + b) % 2
  {
  }

  /** Parities add: the register parity after the first byte plus the rest
      of the message is the starting parity plus the whole message. */
  lemma SumParity(result: nat, updated: nat, rest: nat, reg: nat, byte: nat, weight: nat)
    requires result % 2 == (updated + rest) % 2
    requires updated % 2 == (reg + byte) % 2
    requires weight == byte + rest
    ensures result % 2 == (reg + weight) % 2
  {
  }

  /** The parity of the register's set bits after the loop is that of the
      starting register plus all message bits; from 0x00 the checksum
      therefore has the bit parity of the whole message. */
  lemma ParityInvariant(reg: bv8, data: seq<bv8>)
    ensures Popcount(Crc8From(reg, data)) % 2 == (Popcount(reg) + Weight(data)) % 2
  {
    ParityTracksAlways(reg, data);
  }

  /** The parity claim of `ParityInvariant` for one register and message. */
  predicate ParityTracks(reg: bv8, data: seq<bv8>) {
    Popcount(Crc8From(reg, data)) % 2 == (Popcount(reg) + Weight(data)) % 2
  }

  lemma {:induction false} ParityTracksAlways(reg: bv8, data: seq<bv8>)
    ensures ParityTracks(reg, data)
    decreases |data|
  {
    if |data| > 0 {
      ParityTracksAlways(Update(reg, data[0]), data[1..]);
      ParityStep(reg, data);
    }
  }

  /** The inductive step: the first byte's update adds its parity. */
  lemma ParityStep(reg: bv8, data: seq<bv8>)
    requires |data| > 0
    requires ParityTracks(Update(reg, data[0]), data[1..])
    ensures ParityTracks(reg, data)
  {
    UpdateParity(reg, data[0]);
    FirstByte(reg, data);
    SumParity(Popcount(Crc8From(reg, data)), Popcount(Update(reg, data[0])), Weight(data[1..]),
              Popcount(reg), Popcount(data[0]), Weight(data));
  }

  /** The loop and the weight, with the first byte taken off. */
  lemma FirstByte(reg: bv8, data: seq<bv8>)
    requires |data| > 0
    ensures Crc8From(reg, data) == Crc8From(Update(reg, data[0]), data[1..])
    ensures Weight(data) == Popcount(data[0]) + Weight(data[1..])
  {
  }

  /** Any odd number of flipped bits anywhere in the message is detected. */
  lemma OddErrorsDetected(data: seq<bv8>, e: seq<bv8>)
    requires |e| == |data| && Weight(e) % 2 == 1
    ensures Crc8(Xor(data, e)) != Crc8(data)
  {
    Crc8OfCorruption(data, e);
    ParityInvariant(Init, e);
    assert Popcount(Crc8(e)) % 2 == 1;
  }

  // ---------------------------------------------------------------------
  // Burst errors of at most eight bits
  // ---------------------------------------------------------------------

  /** The error pattern of a burst: the eight message bits that start at bit
      `s` (counted from the MSB) of byte `i` are XOR-ed with `pattern`, whose
      MSB lands first.  The offset is a `bv8` so that shifting by it stays a
      bit-vector operation.  The burst covers the low `8 - s` bits of byte `i` and
      the high `s` bits of byte `i + 1`. */
  function Burst(n: nat, i: nat, s: bv8, pattern: bv8): (e: seq<bv8>)
    requires i < n && s < 8
    ensures |e| == n
  {
    var first := pattern >> s;
    var second := pattern << (8 - s);
    seq(n, j => if j == i then first else if j == i + 1 then second else 0)
  }

  /** Zero bytes keep a zero register at zero and a nonzero one nonzero. */
  lemma {:induction false} ZerosKeepZero(reg: bv8, k: nat)
    ensures (Crc8From(reg, Zeros(k)) == 0) == (reg == 0)
    decreases k
  {
    if k > 0 {
      assert Zeros(k)[0] == 0;
      assert Zeros(k)[1..] == Zeros(k - 1);
      assert reg ^ 0 == reg;
      StepsZero(reg, 8);
      ZerosKeepZero(Update(reg, 0), k - 1);
    }
  }

  /** Within two bytes, a nonzero burst leaves a nonzero register. */
  lemma BurstKernel(pattern: bv8, s: bv8)
    requires pattern != 0 && 0 < s < 8
    ensures Update(Update(0, pattern >> s), pattern << (8 - s)) != 0
  {
    var hi, lo := pattern >> s, pattern << (8 - s);
    BurstHalvesDiffer(pattern, s);
    assert Update(0, hi) ^ lo != 0;
    StepsZero(Update(0, hi) ^ lo, 8);
  }

  /** The register the first part of a burst leaves is not the second
      part, so XOR-ing the second part in cannot clear it. */
  lemma BurstHalvesDiffer(pattern: bv8, s: bv8)
    requires pattern != 0 && 0 < s < 8
    ensures Update(0, pattern >> s) != pattern << (8 - s)
  {
    StepsUnrolled(0 ^ (pattern >> s));
  }

  /** A burst that ends in the last byte of an `n`-byte message. */
  lemma LastByteBurstNonzero(n: nat, pattern: bv8)
    requires 0 < n && pattern != 0
    ensures Crc8(Burst(n, n - 1, 0, pattern)) != 0
  {
    var e := Burst(n, n - 1, 0, pattern);
    assert e == Zeros(n - 1) + [pattern];
    Crc8FromAppend(Init, Zeros(n - 1), [pattern]);
    ZerosKeepZero(Init, n - 1);
    StepsZero(0 ^ pattern, 8);
  }

  /** The register a burst leaves after the two bytes it touches. */
  lemma BurstPairNonzero(pattern: bv8, s: bv8)
    requires pattern != 0 && s < 8
    ensures Crc8From(0, [pattern >> s, pattern << (8 - s)]) != 0
  {
    Crc8FromCons(0, pattern >> s, [pattern << (8 - s)]);
    if s == 0 {
      assert pattern << (8 - s) == 0 && pattern >> s == pattern;
      StepsZero(0 ^ pattern, 8);
      StepsZero(Update(0, pattern) ^ 0, 8);
    } else {
      BurstKernel(pattern, s);
    }
  }

  /** A burst with a byte after the one it starts in. */
  lemma InnerBurstNonzero(n: nat, i: nat, s: bv8, pattern: bv8)
    requires i + 1 < n && s < 8 && pattern != 0
    ensures Crc8(Burst(n, i, s, pattern)) != 0
  {
    var e := Burst(n, i, s, pattern);
    var pair := [pattern >> s, pattern << (8 - s)];
    var tail := Zeros(n - i - 2);
    assert e == Zeros(i) + pair + tail;
    Crc8FromAppend(Init, Zeros(i) + pair, tail);
    Crc8FromAppend(Init, Zeros(i), pair);
    ZerosKeepZero(Init, i);
    BurstPairNonzero(pattern, s);
    ZerosKeepZero(Crc8From(0, pair), n - i - 2);
  }

  /** The checksum of a burst error pattern itself is never 0x00. */
  lemma BurstChecksumNonzero(n: nat, i: nat, s: bv8, pattern: bv8)
    requires i < n && s < 8 && pattern != 0
    requires s == 0 || i + 1 < n
    ensures Crc8(Burst(n, i, s, pattern)) != 0
  {
    if i + 1 < n {
      InnerBurstNonzero(n, i, s, pattern);
    } else {
      LastByteBurstNonzero(n, pattern);
    }
  }

  /** Any burst of errors confined to eight consecutive message bits is
      detected; this covers every two-bit error whose bits are at most seven
      positions apart, so that both lie inside one window of eight bits. */
  lemma BurstErrorDetected(data: seq<bv8>, i: nat, s: bv8, pattern: bv8)
    requires i < |data| && s < 8 && pattern != 0
    requires s == 0 || i + 1 < |data|
    ensures Crc8(Xor(data, Burst(|data|, i, s, pattern))) != Crc8(data)
  {
    Crc8OfCorruption(data, Burst(|data|, i, s, pattern));
    BurstChecksumNonzero(|data|, i, s, pattern);
  }
}
