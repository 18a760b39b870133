/**
  The CRC-8 engine: polynomial x^8 + x^2 + x + 1 (0x07), initial register
  0x00, most-significant bit first, no reflection and no final XOR (the
  parameter set known as CRC-8/SMBUS).

  The register is a `bv8`, so every left shift drops bit 7 exactly as the
  8-bit `uint8_t` register of the C++ code does when the promoted `int` result
  is stored back.  The same algorithm appears twice in the repository
  (crc-8.cpp and checksums.cpp); both are modelled by `Crc8` below.
 */
module Crc8Engine {

  /** The generator polynomial with its implicit x^8 term dropped. */
  const Poly: bv8 := 0x07

  /** The register value before any byte is processed. */
  const Init: bv8 := 0x00

  /** One division step: shift left, and subtract (XOR) the polynomial when
      the bit shifted out was a 1. */
  function BitStep(c: bv8): bv8 {
    if c & 0x80 != 0 then (c << 1) ^ Poly else c << 1
  }

  /** The register after `n` passes of the inner loop, starting from `c`. */
  function Steps(c: bv8, n: nat): bv8 {
    if n == 0 then c else BitStep(Steps(c, n - 1))
  }

  /** The effect of one byte on the register: XOR it in, then eight steps. */
  function Update(reg: bv8, b: bv8): bv8 {
    Steps(reg ^ b, 8)
  }

  /** The register after the bytes of `data`, continuing from `reg`. */
  function Crc8From(reg: bv8, data: seq<bv8>): bv8
    decreases |data|
  {
    if |data| == 0 then reg else Crc8From(Update(reg, data[0]), data[1..])
  }

  /** The checksum of `data`. */
  function Crc8(data: seq<bv8>): bv8 {
    Crc8From(Init, data)
  }

  /** `n` zero bytes. */
  function Zeros(n: nat): (z: seq<bv8>)
    ensures |z| == n
    ensures forall i :: 0 <= i < n ==> z[i] == 0
  {
    seq(n, _ => 0)
  }

  /** Addition of two bytes read as polynomials of degree below 8 over
      GF(2): coefficient-wise addition modulo 2, which is bitwise XOR.
      Subtraction is the same operation. */
  function Add(a: bv8, b: bv8): bv8 {
    a ^ b
  }

  /** Byte-wise XOR of two equally long sequences: `Xor(data, e)` is `data`
      with exactly the bits set in the error pattern `e` flipped. */
  function Xor(a: seq<bv8>, b: seq<bv8>): (r: seq<bv8>)
    requires |a| == |b|
    ensures |r| == |a|
    ensures forall i :: 0 <= i < |a| ==> r[i] == Add(a[i], b[i])
    decreases |a|
  {
    if |a| == 0 then [] else [Add(a[0], b[0])] + Xor(a[1..], b[1..])
  }

  // ---------------------------------------------------------------------
  // One bit step and one byte
  // ---------------------------------------------------------------------

  /** A bit step multiplies the register by x: bits 7..3 of the result are
      bits 6..2 of the register, whatever was subtracted.  The polynomial
      0x07 reaches only the three low bits, and its x^0 term makes the lowest
      bit of the result record whether the dropped MSB was 1. */
  lemma BitStepBits(c: bv8)
    ensures BitStep(c) & 0xF8 == (c << 1) & 0xF8
    ensures (BitStep(c) & 0x01 != 0) == (c & 0x80 != 0)
    ensures BitStep(c) & 0x06 == ((c << 1) & 0x06) ^ (if c & 0x80 != 0 then 0x06 else 0x00)
  {
  }

  /** The eight passes of the inner loop for one byte, written out. */
  lemma StepsUnrolled(c: bv8)
    ensures Steps(c, 8)
         == BitStep(BitStep(BitStep(BitStep(BitStep(BitStep(BitStep(BitStep(c))))))))
  {
    assert Steps(c, 1) == BitStep(c);
    assert Steps(c, 2) == BitStep(Steps(c, 1));
    assert Steps(c, 3) == BitStep(Steps(c, 2));
    assert Steps(c, 4) == BitStep(Steps(c, 3));
    assert Steps(c, 5) == BitStep(Steps(c, 4));
    assert Steps(c, 6) == BitStep(Steps(c, 5));
    assert Steps(c, 7) == BitStep(Steps(c, 6));
  }

  // ---------------------------------------------------------------------
  // Fold structure
  // ---------------------------------------------------------------------

  /** An empty input leaves the register at its initial value. */
  lemma EmptyInput(reg: bv8)
    ensures Crc8From(reg, []) == reg
    ensures Crc8([]) == 0x00
  {
  }

  /** Checksumming `a + b` is checksumming `a`, then continuing the byte
      loop over `b` from the register that `a` left behind. */
  lemma {:induction false} Crc8FromAppend(reg: bv8, a: seq<bv8>, b: seq<bv8>)
    ensures Crc8From(reg, a + b) == Crc8From(Crc8From(reg, a), b)
    decreases |a|
  {
    if |a| == 0 {
      assert a + b == b;
    } else {
      assert (a + b)[0] == a[0];
      assert (a + b)[1..] == a[1..] + b;
      Crc8FromAppend(Update(reg, a[0]), a[1..], b);
    }
  }

  /** Processing one more byte is one more call of `Update`. */
  lemma Crc8Snoc(data: seq<bv8>, b: bv8)
    ensures Crc8(data + [b]) == Update(Crc8(data), b)
  {
    Crc8FromAppend(Init, data, [b]);
  }

  lemma Crc8FromCons(reg: bv8, b: bv8, rest: seq<bv8>)
    ensures Crc8From(reg, [b] + rest) == Crc8From(Update(reg, b), rest)
  {
    assert ([b] + rest)[1..] == rest;
  }

  // ---------------------------------------------------------------------
  // The imperative loop of crc8_checksum
  // ---------------------------------------------------------------------

  /** The nested loops of `crc8_checksum`, register by register. */
  method Crc8Checksum(data: seq<bv8>) returns (crc: bv8)
    ensures crc == Crc8(data)
  {
    crc := 0x00;
    var j := 0;
    while j < |data|
      invariant 0 <= j <= |data|
      invariant crc == Crc8(data[..j])
    {
      var start := crc ^ data[j];
      crc := start;
      var i := 0;
      while i < 8
        invariant 0 <= i <= 8
        invariant crc == Steps(start, i)
      {
        if crc & 0x80 != 0 {
          crc := (crc << 1) ^ 0x07;
        } else {
          crc := crc << 1;
        }
        i := i + 1;
      }
      assert data[..j + 1] == data[..j] + [data[j]];
      Crc8Snoc(data[..j], data[j]);
      j := j + 1;
    }
    assert data[..j] == data;
  }

  // ---------------------------------------------------------------------
  // The register evolution traced by demonstrate_crc8
  // ---------------------------------------------------------------------

  /** One pass of the inner loop as the demonstration reports it: the
      register before, whether its MSB was set, and the register after. */
  datatype BitTrace = BitTrace(before: bv8, msbSet: bool, after: bv8)

  /** One pass of the outer loop: the input byte, the register before and
      after XOR-ing it in, the eight bit steps, and the resulting register. */
  datatype ByteTrace = ByteTrace(input: bv8, before: bv8, afterXor: bv8,
                                 bits: seq<BitTrace>, after: bv8)

  /** A bit step takes the shift-and-XOR branch exactly when the MSB is set. */
  predicate ValidBit(t: BitTrace) {
    && t.msbSet == (t.before & 0x80 != 0)
    && t.after == (if t.msbSet then (t.before << 1) ^ Poly else t.before << 1)
  }

  /** The report of one bit step taken from register `c`. */
  function StepTrace(c: bv8): (t: BitTrace)
    ensures ValidBit(t) && t.before == c
  {
    BitTrace(c, c & 0x80 != 0, BitStep(c))
  }

  /** A byte's trace: XOR first, then eight chained bit steps. */
  predicate ValidByte(t: ByteTrace) {
    && t.afterXor == t.before ^ t.input
    && |t.bits| == 8
    && t.bits[0].before == t.afterXor
    && (forall i :: 0 <= i < 8 ==> ValidBit(t.bits[i]))
    && (forall i :: 0 <= i < 7 ==> t.bits[i + 1].before == t.bits[i].after)
    && t.after == t.bits[7].after
  }

  /** A whole demonstration: one valid byte trace per input byte, starting
      from 0x00, each byte starting from where the previous one ended. */
  predicate ValidTrace(data: seq<bv8>, trace: seq<ByteTrace>) {
    && |trace| == |data|
    && (forall j :: 0 <= j < |data| ==> trace[j].input == data[j] && ValidByte(trace[j]))
    && (|data| > 0 ==> trace[0].before == Init)
    && (forall j :: 0 <= j < |data| - 1 ==> trace[j + 1].before == trace[j].after)
  }

  /** The final register of any valid byte trace is what `Update` computes. */
  lemma {:induction false} ByteTraceAgrees(t: ByteTrace)
    requires ValidByte(t)
    ensures t.after == Update(t.before, t.input)
  {
    var i := 0;
    while i < 8
      invariant 0 <= i <= 8
      invariant i < 8 ==> t.bits[i].before == Steps(t.afterXor, i)
      invariant i == 8 ==> t.bits[7].after == Steps(t.afterXor, 8)
    {
      assert ValidBit(t.bits[i]);
      if i < 7 {
        assert t.bits[i + 1].before == t.bits[i].after;
      }
      i := i + 1;
    }
  }

  /** Whatever valid trace the demonstration prints, its register after byte
      `j` is the checksum of the first `j + 1` bytes, so its last register is
      the checksum `crc8_checksum` returns. */
  lemma {:induction false} TraceAgrees(data: seq<bv8>, trace: seq<ByteTrace>)
    requires ValidTrace(data, trace)
    ensures forall j :: 0 <= j < |data| ==> trace[j].after == Crc8(data[..j + 1])
    ensures |data| > 0 ==> trace[|data| - 1].after == Crc8(data)
  {
    var j := 0;
    while j < |data|
      invariant 0 <= j <= |data|
      invariant forall k :: 0 <= k < j ==> trace[k].after == Crc8(data[..k + 1])
    {
      ByteTraceAgrees(trace[j]);
      if j > 0 {
        assert data[..j] == data[..(j - 1) + 1];
        assert trace[(j - 1) + 1].before == trace[j - 1].after;
      } else {
        assert data[..j] == [];
        EmptyInput(Init);
      }
      assert data[..j + 1] == data[..j] + [data[j]];
      Crc8Snoc(data[..j], data[j]);
      j := j + 1;
    }
    if |data| > 0 {
      assert data[..|data|] == data;
    }
  }

  /** The reports of the first `n` bit steps taken from register `c`. */
  function StepTraces(c: bv8, n: nat): (bits: seq<BitTrace>)
    ensures |bits| == n
  {
    if n == 0 then [] else StepTraces(c, n - 1) + [StepTrace(Steps(c, n - 1))]
  }

  /** Report `k` of `StepTraces` is taken from the register after `k` steps. */
  lemma {:induction false} StepTracesAt(c: bv8, n: nat)
    ensures forall k :: 0 <= k < n ==> StepTraces(c, n)[k] == StepTrace(Steps(c, k))
  {
    if n > 0 {
      StepTracesAt(c, n - 1);
    }
  }

  /** One pass of the outer loop of `demonstrate_crc8`: XOR the byte in and
      record the eight bit steps. */
  method TraceByte(before: bv8, input: bv8) returns (t: ByteTrace)
    ensures ValidByte(t)
    ensures t.before == before && t.input == input
  {
    var crc := before ^ input;
    var afterXor := crc;
    var bits: seq<BitTrace> := [];
    var i := 0;
    while i < 8
      invariant 0 <= i <= 8
      invariant crc == Steps(afterXor, i)
      invariant bits == StepTraces(afterXor, i)
    {
      var msbSet := crc & 0x80 != 0;
      var previous := crc;
      if msbSet {
        crc := (crc << 1) ^ 0x07;
      } else {
        crc := crc << 1;
      }
      bits := bits + [BitTrace(previous, msbSet, crc)];
      i := i + 1;
    }
    StepTracesFormByte(before, input, i);
    t := ByteTrace(input, before, afterXor, bits, crc);
  }

  /** The reports of the `n` bit steps of a byte, taken from consecutive
      registers, form a valid byte trace once `n` reaches eight. */
  lemma StepTracesFormByte(before: bv8, input: bv8, n: nat)
    requires n == 8
    ensures ValidByte(ByteTrace(input, before, before ^ input,
                                StepTraces(before ^ input, n), Steps(before ^ input, n)))
  {
    var bits := StepTraces(before ^ input, n);
    StepTracesAt(before ^ input, n);
    assert forall k :: 0 <= k < 7 ==> bits[k + 1].before == bits[k].after;
  }

  /** The register updates of `demonstrate_crc8` with the printing removed:
      the trace it reports and the checksum it ends with. */
  method DemonstrateCrc8(data: seq<bv8>) returns (trace: seq<ByteTrace>, crc: bv8)
    ensures ValidTrace(data, trace)
    ensures crc == Crc8(data)
    ensures |data| > 0 ==> crc == trace[|data| - 1].after
  {
    crc := 0x00;
    trace := [];
    var j := 0;
    while j < |data|
      invariant 0 <= j <= |data|
      invariant ValidTrace(data[..j], trace)
      invariant j > 0 ==> crc == trace[j - 1].after
      invariant j == 0 ==> crc == Init
    {
      var t := TraceByte(crc, data[j]);
      trace := trace + [t];
      crc := t.after;
      j := j + 1;
      assert data[..j][..j - 1] == data[..j - 1];
    }
    assert data[..j] == data;
    TraceAgrees(data, trace);
  }

  // ---------------------------------------------------------------------
  // The worked examples and the error-detection comparison
  // ---------------------------------------------------------------------

  /** Example 1: the register is 0x07 after byte 0x01, 0x1B at the end. */
  lemma Example1Trace()
    ensures Crc8([0x01]) == 0x07
    ensures Crc8From(0x07, [0x02]) == 0x1B
    ensures Crc8([0x01, 0x02]) == 0x1B
  {
  }

  /** Example 2 ("AB"): the register is 0xC0 after 'A', 0x87 at the end. */
  lemma Example2Trace()
    ensures Crc8([0x41]) == 0xC0
    ensures Crc8From(0xC0, [0x42]) == 0x87
    ensures Crc8([0x41, 0x42]) == 0x87
  {
  }

  lemma HelloCrc()
    ensures Crc8([0x48, 0x65, 0x6C, 0x6C, 0x6F]) == 0xF6
  {
    assert Steps(0x48, 8) == 0xFF;
    assert Steps(0x9A, 8) == 0xCF;
    assert Steps(0xA3, 8) == 0x60;
    assert Steps(0x0C, 8) == 0x24;
    assert Steps(0x4B, 8) == 0xF6;
    Crc8FromCons(0x00, 0x48, [0x65, 0x6C, 0x6C, 0x6F]);
    Crc8FromCons(0xFF, 0x65, [0x6C, 0x6C, 0x6F]);
    Crc8FromCons(0xCF, 0x6C, [0x6C, 0x6F]);
    Crc8FromCons(0x60, 0x6C, [0x6F]);
  }
}
