/**
  The comparisons crc-8.cpp and checksums.cpp run on fixed messages: the
  sum, XOR and CRC-8 of "AB", of the seven-byte sample of checksums.cpp,
  and of "Hello" next to three corrupted copies of it.
 */
module ChecksumDemos {
  import opened Crc8Engine
  import opened Checksums

  /** The three checksums of one message. */
  datatype Comparison = Comparison(sum: Uint8, xor: bv8, crc: bv8)

  /** The three checksums as checksums.cpp defines them. */
  function AllChecksums(data: seq<bv8>): (c: Comparison)
    ensures c.sum as nat == ByteSum(data) % 256
  {
    SumChecksumIsSumMod256(data);
    Comparison(SumChecksum(data), XorChecksum(data), Crc8(data))
  }

  /** `simple_checksum_demo`: an 8-bit sum that wraps at every byte, an
      XOR, and the CRC, which agree with the three checksums of
      checksums.cpp. */
  method SimpleChecksumDemo(data: seq<bv8>) returns (r: Comparison)
    ensures r == AllChecksums(data)
    ensures r.sum as nat == ByteSum(data) % 256
  {
    var sum := WrappingSumLoop(data);
    var xorSum := XorChecksumLoop(data);
    var crc := Crc8Checksum(data);
    SumChecksumIsSumMod256(data);
    r := Comparison(sum, xorSum, crc);
  }

  // ---------------------------------------------------------------------
  // The messages
  // ---------------------------------------------------------------------

  /** "AB", the input of the comparison in `main` of crc-8.cpp. */
  const AB: seq<bv8> := [0x41, 0x42]

  /** The sample message of checksums.cpp. */
  const Sample: seq<bv8> := [0x10, 0x20, 0x30, 0x40, 0x55, 0xAA, 0xFF]

  /** "Hello" and its corruptions in `error_detection_demo`. */
  const Hello: seq<bv8> := [0x48, 0x65, 0x6C, 0x6C, 0x6F]
  /** "Hemlo": the third byte has its lowest bit flipped. */
  const Hemlo: seq<bv8> := [0x48, 0x65, 0x6D, 0x6C, 0x6F]
  /** "Helol": the last two bytes exchanged. */
  const Helol: seq<bv8> := [0x48, 0x65, 0x6C, 0x6F, 0x6C]
  /** "HEllo": the second byte has bit 5 flipped. */
  const HEllo: seq<bv8> := [0x48, 0x45, 0x6C, 0x6C, 0x6F]

  // ---------------------------------------------------------------------
  // What the comparisons print
  // ---------------------------------------------------------------------

  /** The sum and XOR of a five-byte message, byte by byte. */
  lemma FiveByteChecksums(a: bv8, b: bv8, c: bv8, d: bv8, e: bv8)
    ensures ByteSum([a, b, c, d, e]) == a as nat + b as nat + c as nat + d as nat + e as nat
    ensures XorChecksum([a, b, c, d, e]) == a ^ b ^ c ^ d ^ e
  {
    FourByteChecksums(b, c, d, e);
    assert [a, b, c, d, e] == [a] + [b, c, d, e];
    ConsChecksums(a, [b, c, d, e]);
  }

  lemma FourByteChecksums(b: bv8, c: bv8, d: bv8, e: bv8)
    ensures ByteSum([b, c, d, e]) == b as nat + c as nat + d as nat + e as nat
    ensures XorChecksum([b, c, d, e]) == b ^ c ^ d ^ e
  {
    TwoByteChecksums(d, e);
    assert [c, d, e] == [c] + [d, e];
    ConsChecksums(c, [d, e]);
    assert [b, c, d, e] == [b] + [c, d, e];
    ConsChecksums(b, [c, d, e]);
  }

  lemma TwoByteChecksums(d: bv8, e: bv8)
    ensures ByteSum([d, e]) == d as nat + e as nat
    ensures XorChecksum([d, e]) == d ^ e
  {
    assert [d, e] == [d] + [e];
    ConsChecksums(d, [e]);
    assert [e] == [e] + [];
    ConsChecksums(e, []);
  }

  lemma ABChecksums()
    ensures AllChecksums(AB) == Comparison(0x83, 0x03, 0x87)
  {
    Example2Trace();
    TwoByteChecksums(0x41, 0x42);
    SumChecksumIsSumMod256(AB);
  }

  lemma SampleChecksums()
    ensures AllChecksums(Sample) == Comparison(0x9E, 0x40, 0xA8)
  {
    SampleCrc();
    assert Sample == [0x10] + ([0x20] + [0x30, 0x40, 0x55, 0xAA, 0xFF]);
    ConsChecksums(0x10, [0x20] + [0x30, 0x40, 0x55, 0xAA, 0xFF]);
    ConsChecksums(0x20, [0x30, 0x40, 0x55, 0xAA, 0xFF]);
    FiveByteChecksums(0x30, 0x40, 0x55, 0xAA, 0xFF);
    SumChecksumIsSumMod256(Sample);
  }

  /** The CRC-8 of the sample message, one byte at a time. */
  lemma SampleCrc()
    ensures Crc8(Sample) == 0xA8
  {
    assert Steps(0x10, 8) == 0x70;
    assert Steps(0x50, 8) == 0xB7;
    assert Steps(0x87, 8) == 0x9C;
    assert Steps(0xDC, 8) == 0x1A;
    assert Steps(0x4F, 8) == 0xEA;
    assert Steps(0x40, 8) == 0xC7;
    assert Steps(0x38, 8) == 0xA8;
    Crc8FromCons(0x00, 0x10, [0x20, 0x30, 0x40, 0x55, 0xAA, 0xFF]);
    Crc8FromCons(0x70, 0x20, [0x30, 0x40, 0x55, 0xAA, 0xFF]);
    Crc8FromCons(0xB7, 0x30, [0x40, 0x55, 0xAA, 0xFF]);
    Crc8FromCons(0x9C, 0x40, [0x55, 0xAA, 0xFF]);
    Crc8FromCons(0x1A, 0x55, [0xAA, 0xFF]);
    Crc8FromCons(0xEA, 0xAA, [0xFF]);
    Crc8FromCons(0xC7, 0xFF, []);
    assert [0xFF] == [0xFF] + [];
    assert Sample == [0x10] + [0x20, 0x30, 0x40, 0x55, 0xAA, 0xFF];
  }

  lemma HelloChecksums()
    ensures AllChecksums(Hello) == Comparison(0xF4, 0x42, 0xF6)
  {
    HelloCrc();
    FiveByteChecksums(0x48, 0x65, 0x6C, 0x6C, 0x6F);
    SumChecksumIsSumMod256(Hello);
  }

  /** The CRC-8 of "Hemlo", one byte at a time. */
  lemma HemloCrc()
    ensures Crc8(Hemlo) == 0x9D
  {
    assert Steps(0x48, 8) == 0xFF;
    assert Steps(0x9A, 8) == 0xCF;
    assert Steps(0xA2, 8) == 0x67;
    assert Steps(0x0B, 8) == 0x31;
    assert Steps(0x5E, 8) == 0x9D;
    Crc8FromCons(0x00, 0x48, [0x65, 0x6D, 0x6C, 0x6F]);
    Crc8FromCons(0xFF, 0x65, [0x6D, 0x6C, 0x6F]);
    Crc8FromCons(0xCF, 0x6D, [0x6C, 0x6F]);
    Crc8FromCons(0x67, 0x6C, [0x6F]);
  }

  lemma HemloChecksums()
    ensures AllChecksums(Hemlo) == Comparison(0xF5, 0x43, 0x9D)
  {
    HemloCrc();
    FiveByteChecksums(0x48, 0x65, 0x6D, 0x6C, 0x6F);
    SumChecksumIsSumMod256(Hemlo);
  }

  /** The CRC-8 of "Helol", one byte at a time. */
  lemma HelolCrc()
    ensures Crc8(Helol) == 0xC0
  {
    assert Steps(0x48, 8) == 0xFF;
    assert Steps(0x9A, 8) == 0xCF;
    assert Steps(0xA3, 8) == 0x60;
    assert Steps(0x0F, 8) == 0x2D;
    assert Steps(0x41, 8) == 0xC0 by { StepsUnrolled(0x41); }
    Crc8FromCons(0x00, 0x48, [0x65, 0x6C, 0x6F, 0x6C]);
    Crc8FromCons(0xFF, 0x65, [0x6C, 0x6F, 0x6C]);
    Crc8FromCons(0xCF, 0x6C, [0x6F, 0x6C]);
    Crc8FromCons(0x60, 0x6F, [0x6C]);
  }

  lemma HelolChecksums()
    ensures AllChecksums(Helol) == Comparison(0xF4, 0x42, 0xC0)
  {
    HelolCrc();
    FiveByteChecksums(0x48, 0x65, 0x6C, 0x6F, 0x6C);
    SumChecksumIsSumMod256(Helol);
  }

  /** The CRC-8 of "HEllo", one byte at a time. */
  lemma HElloCrc()
    ensures Crc8(HEllo) == 0x38
  {
    assert Steps(0x48, 8) == 0xFF;
    assert Steps(0xBA, 8) == 0x2F;
    assert Steps(0x43, 8) == 0xCE;
    assert Steps(0xA2, 8) == 0x67;
    assert Steps(0x08, 8) == 0x38;
    Crc8FromCons(0x00, 0x48, [0x45, 0x6C, 0x6C, 0x6F]);
    Crc8FromCons(0xFF, 0x45, [0x6C, 0x6C, 0x6F]);
    Crc8FromCons(0x2F, 0x6C, [0x6C, 0x6F]);
    Crc8FromCons(0xCE, 0x6C, [0x6F]);
  }

  lemma HElloChecksums()
    ensures AllChecksums(HEllo) == Comparison(0xD4, 0x62, 0x38)
  {
    HElloCrc();
    FiveByteChecksums(0x48, 0x45, 0x6C, 0x6C, 0x6F);
    SumChecksumIsSumMod256(HEllo);
  }

  /** The verdicts of `error_detection_demo`: the exchange in "Helol" is
      invisible to the sum and the XOR, as for every exchange of two bytes;
      every corruption changes the CRC.  The demo sums into a `uint8_t`
      that wraps at every byte (`WrappingSum`); its verdicts are stated
      directly, and those of `sum_checksum` follow by `WrappingSumAgrees`. */
  lemma ErrorDetectionVerdicts()
    ensures WrappingSum(Hemlo) != WrappingSum(Hello)
    ensures WrappingSum(Helol) == WrappingSum(Hello)
    ensures WrappingSum(HEllo) != WrappingSum(Hello)
    ensures AllChecksums(Hemlo).sum != AllChecksums(Hello).sum
    ensures AllChecksums(Helol).sum == AllChecksums(Hello).sum
    ensures AllChecksums(HEllo).sum != AllChecksums(Hello).sum
    ensures AllChecksums(Hemlo).xor != AllChecksums(Hello).xor
    ensures AllChecksums(Helol).xor == AllChecksums(Hello).xor
    ensures AllChecksums(HEllo).xor != AllChecksums(Hello).xor
    ensures AllChecksums(Hemlo).crc != AllChecksums(Hello).crc
    ensures AllChecksums(Helol).crc != AllChecksums(Hello).crc
    ensures AllChecksums(HEllo).crc != AllChecksums(Hello).crc
  {
    HelloChecksums();
    HemloChecksums();
    HelolChecksums();
    HElloChecksums();
    WrappingSumAgrees(Hello);
    WrappingSumAgrees(Hemlo);
    WrappingSumAgrees(Helol);
    WrappingSumAgrees(HEllo);
  }

  /** "Helol" is "Hello" with its last two bytes exchanged, which is why
      the sum and XOR cannot see the difference. */
  lemma HelolIsSwap()
    ensures Helol == SwapBytes(Hello, 3, 4)
    ensures SumChecksum(Helol) == SumChecksum(Hello)
    ensures XorChecksum(Helol) == XorChecksum(Hello)
  {
    SwapUndetected(Hello, 3, 4);
  }
}
