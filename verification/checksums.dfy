/**
  The two simple checksums the repository compares against CRC-8.

  `sum_checksum` (checksums.cpp) adds the bytes into a 32-bit unsigned
  accumulator and keeps its low byte; the inline loop of
  `simple_checksum_demo` and `error_detection_demo` (crc-8.cpp) adds them
  into an 8-bit accumulator that wraps at every step.  `xor_checksum` XORs
  the bytes together.  Both checksums are compared here with an unbounded
  reference: the arithmetic sum of the bytes, and the byte-wise XOR fold.
 */
module Checksums {
  import opened Crc8Engine

  // ---------------------------------------------------------------------
  // References
  // ---------------------------------------------------------------------

  /** The arithmetic sum of the bytes, without any wrap-around. */
  function ByteSum(data: seq<bv8>): nat
    decreases |data|
  {
    if |data| == 0 then 0 else ByteSum(data[..|data| - 1]) + data[|data| - 1] as nat
  }

  /** A `uint8_t` value as a number.  C++ adds two of them in `int` and
      stores the result back modulo 256. */
  newtype Uint8 = x: int | 0 <= x < 256

  /** The number of values of a `uint32_t`; unsigned addition wraps modulo it. */
  const Uint32Range: nat := 0x1_0000_0000

  // ---------------------------------------------------------------------
  // Sum checksum
  // ---------------------------------------------------------------------

  /** The 32-bit accumulator of `sum_checksum` after the bytes of `data`. */
  function Sum32(data: seq<bv8>): nat
    decreases |data|
  {
    if |data| == 0 then 0
    else (Sum32(data[..|data| - 1]) + data[|data| - 1] as nat) % Uint32Range
  }

  /** `sum_checksum`: the low byte (`& 0xFF`) of the 32-bit accumulator. */
  function SumChecksum(data: seq<bv8>): Uint8 {
    (Sum32(data) % 256) as Uint8
  }

  /** The 8-bit accumulator of the comparison demos: `uint8_t` addition
      keeps only the low byte after every byte. */
  function WrappingSum(data: seq<bv8>): Uint8
    decreases |data|
  {
    if |data| == 0 then 0
    else ((WrappingSum(data[..|data| - 1]) as int + data[|data| - 1] as int) % 256) as Uint8
  }

  /** The 32-bit accumulator is the true sum reduced modulo 2^32. */
  lemma {:induction false} Sum32IsReducedSum(data: seq<bv8>)
    ensures Sum32(data) == ByteSum(data) % Uint32Range
    decreases |data|
  {
    if |data| > 0 {
      Sum32IsReducedSum(data[..|data| - 1]);
      ReduceEarly32(ByteSum(data[..|data| - 1]), data[|data| - 1] as nat);
    }
  }

  /** Reducing the running total early does not change its residue. */
  lemma ReduceEarly32(a: nat, b: nat)
    ensures (a % Uint32Range + b) % Uint32Range == (a + b) % Uint32Range
  {
  }

  /** The same for the 8-bit accumulator. */
  lemma ReduceEarly8(a: nat, b: nat)
    ensures (a % 256 + b) % 256 == (a + b) % 256
  {
  }

  /** Residues modulo 2^32 keep their residue modulo 256. */
  lemma ModNested(x: nat)
    ensures (x % Uint32Range) % 256 == x % 256
  {
    var q := x / Uint32Range;
    assert x == q * Uint32Range + x % Uint32Range;
    assert q * Uint32Range == (q * 0x100_0000) * 256;
  }

  /** `sum_checksum` is the sum of the bytes modulo 256: the 32-bit
      accumulator never loses a bit of the low byte. */
  lemma SumChecksumIsSumMod256(data: seq<bv8>)
    ensures SumChecksum(data) as nat == ByteSum(data) % 256
  {
    Sum32IsReducedSum(data);
    ModNested(ByteSum(data));
  }

  /** The 8-bit accumulator is also the sum modulo 256. */
  lemma {:induction false} WrappingSumIsSumMod256(data: seq<bv8>)
    ensures WrappingSum(data) as nat == ByteSum(data) % 256
    decreases |data|
  {
    if |data| > 0 {
      var prefix := data[..|data| - 1];
      var last := data[|data| - 1];
      WrappingSumIsSumMod256(prefix);
      ReduceEarly8(ByteSum(prefix), last as nat);
    }
  }

  /** The 8-bit and 32-bit accumulators give the same checksum on every input. */
  lemma WrappingSumAgrees(data: seq<bv8>)
    ensures WrappingSum(data) == SumChecksum(data)
  {
    WrappingSumIsSumMod256(data);
    SumChecksumIsSumMod256(data);
  }

  /** `sum_checksum` as the loop in checksums.cpp runs it. */
  method SumChecksumLoop(data: seq<bv8>) returns (r: Uint8)
    ensures r as nat == ByteSum(data) % 256
    ensures r == SumChecksum(data)
  {
    var sum: nat := 0;
    var i := 0;
    while i < |data|
      invariant 0 <= i <= |data|
      invariant sum == Sum32(data[..i])
    {
      assert data[..i + 1][..i] == data[..i];
      sum := (sum + data[i] as nat) % Uint32Range;
      i := i + 1;
    }
    assert data[..i] == data;
    r := (sum % 256) as Uint8;
    SumChecksumIsSumMod256(data);
  }

  /** The 8-bit accumulating loop of the comparison demos. */
  method WrappingSumLoop(data: seq<bv8>) returns (r: Uint8)
    ensures r as nat == ByteSum(data) % 256
  {
    r := 0;
    var i := 0;
    while i < |data|
      invariant 0 <= i <= |data|
      invariant r == WrappingSum(data[..i])
    {
      assert data[..i + 1][..i] == data[..i];
      r := ((r as int + data[i] as int) % 256) as Uint8;
      i := i + 1;
    }
    assert data[..i] == data;
    WrappingSumIsSumMod256(data);
  }

  // ---------------------------------------------------------------------
  // XOR checksum
  // ---------------------------------------------------------------------

  /** `xor_checksum`: all bytes XORed together, starting from 0. */
  function XorChecksum(data: seq<bv8>): bv8
    decreases |data|
  {
    if |data| == 0 then 0 else XorChecksum(data[..|data| - 1]) ^ data[|data| - 1]
  }

  /** `xor_checksum` as the loop in checksums.cpp runs it. */
  method XorChecksumLoop(data: seq<bv8>) returns (r: bv8)
    ensures r == XorChecksum(data)
  {
    r := 0;
    var i := 0;
    while i < |data|
      invariant 0 <= i <= |data|
      invariant r == XorChecksum(data[..i])
    {
      assert data[..i + 1][..i] == data[..i];
      r := r ^ data[i];
      i := i + 1;
    }
    assert data[..i] == data;
  }

  // ---------------------------------------------------------------------
  // Both checksums are blind to the order of the bytes
  // ---------------------------------------------------------------------

  /** The sum of a concatenation is the sum of the parts. */
  lemma {:induction false} SumAppend(a: seq<bv8>, b: seq<bv8>)
    ensures ByteSum(a + b) == ByteSum(a) + ByteSum(b)
    decreases |b|
  {
    if |b| > 0 {
      assert (a + b)[..|a + b| - 1] == a + b[..|b| - 1];
      SumAppend(a, b[..|b| - 1]);
    } else {
      assert a + b == a;
    }
  }

  /** The XOR of a concatenation is the XOR of the parts. */
  lemma {:induction false} XorAppend(a: seq<bv8>, b: seq<bv8>)
    ensures XorChecksum(a + b) == XorChecksum(a) ^ XorChecksum(b)
    decreases |b|
  {
    if |b| > 0 {
      assert (a + b)[..|a + b| - 1] == a + b[..|b| - 1];
      XorAppend(a, b[..|b| - 1]);
    } else {
      assert a + b == a;
    }
  }

  /** `data` with the byte at `j` taken out. */
  function RemoveAt(data: seq<bv8>, j: nat): (r: seq<bv8>)
    requires j < |data|
    ensures |r| == |data| - 1
  {
    data[..j] + data[j + 1..]
  }

  /** Taking out a byte takes it out of the multiset of bytes. */
  lemma RemoveAtMultiset(data: seq<bv8>, j: nat)
    requires j < |data|
    ensures multiset(RemoveAt(data, j)) == multiset(data) - multiset{data[j]}
  {
    assert data == data[..j] + [data[j]] + data[j + 1..];
  }

  /** `data` is the bytes before `j`, the byte at `j`, and the bytes after. */
  lemma SplitAt(data: seq<bv8>, j: nat)
    requires j < |data|
    ensures data == data[..j] + ([data[j]] + data[j + 1..])
    ensures RemoveAt(data, j) == data[..j] + data[j + 1..]
  {
  }

  /** The sum and XOR of a message, one byte peeled off the front. */
  lemma ConsChecksums(b: bv8, rest: seq<bv8>)
    ensures ByteSum([b] + rest) == b as nat + ByteSum(rest)
    ensures XorChecksum([b] + rest) == b ^ XorChecksum(rest)
  {
    SumAppend([b], rest);
    XorAppend([b], rest);
    assert [b][..0] == [];
  }

  /** Any byte of `data` can be added last. */
  lemma PullOutSum(data: seq<bv8>, j: nat)
    requires j < |data|
    ensures ByteSum(data) == ByteSum(RemoveAt(data, j)) + data[j] as nat
  {
    var pre, post := data[..j], data[j + 1..];
    SplitAt(data, j);
    SumAppend(pre, [data[j]] + post);
    ConsChecksums(data[j], post);
    SumAppend(pre, post);
  }

  /** Any byte of `data` can be XORed in last. */
  lemma PullOutXor(data: seq<bv8>, j: nat)
    requires j < |data|
    ensures XorChecksum(data) == XorChecksum(RemoveAt(data, j)) ^ data[j]
  {
    var pre, post := data[..j], data[j + 1..];
    SplitAt(data, j);
    XorAppend(pre, [data[j]] + post);
    ConsChecksums(data[j], post);
    XorAppend(pre, post);
    XorRearrange(XorChecksum(pre), data[j], XorChecksum(post));
  }

  lemma XorRearrange(a: bv8, b: bv8, c: bv8)
    ensures a ^ (b ^ c) == (a ^ c) ^ b
  {
  }

  /** Rearranging the bytes changes neither the sum nor the XOR. */
  lemma {:induction false} PermutationInvariant(a: seq<bv8>, b: seq<bv8>)
    requires multiset(a) == multiset(b)
    ensures ByteSum(a) == ByteSum(b)
    ensures XorChecksum(a) == XorChecksum(b)
    ensures SumChecksum(a) == SumChecksum(b)
    decreases |a|
  {
    if |a| == 0 {
      assert |b| == |multiset(b)| == 0;
    } else {
      var last := a[|a| - 1];
      assert last in multiset(b);
      var j :| 0 <= j < |b| && b[j] == last;
      assert a == a[..|a| - 1] + [last];
      assert multiset(a[..|a| - 1]) == multiset(a) - multiset{last};
      RemoveAtMultiset(b, j);
      PermutationInvariant(a[..|a| - 1], RemoveAt(b, j));
      PullOutSum(b, j);
      PullOutXor(b, j);
      Sum32IsReducedSum(a);
      Sum32IsReducedSum(b);
    }
  }

  /** `data` with the bytes at `i` and `j` exchanged. */
  function SwapBytes(data: seq<bv8>, i: nat, j: nat): (r: seq<bv8>)
    requires i < |data| && j < |data|
    ensures |r| == |data| && r[i] == data[j] && r[j] == data[i]
    ensures forall k :: 0 <= k < |data| && k != i && k != j ==> r[k] == data[k]
  {
    data[i := data[j]][j := data[i]]
  }

  /** Exchanging two bytes keeps the multiset of bytes. */
  lemma SwapPermutes(data: seq<bv8>, i: nat, j: nat)
    requires i < |data| && j < |data|
    ensures multiset(SwapBytes(data, i, j)) == multiset(data)
  {
    var once := data[i := data[j]];
    UpdateMultiset(data, i, data[j]);
    UpdateMultiset(once, j, data[i]);
    if i != j {
      assert data[j] in multiset(data);
    }
  }

  /** Overwriting one element trades it for the new value in the multiset. */
  lemma UpdateMultiset(s: seq<bv8>, i: nat, v: bv8)
    requires i < |s|
    ensures multiset(s[i := v]) == multiset(s) - multiset{s[i]} + multiset{v}
  {
  }

  /** Swapping two bytes (the "Helol" corruption) goes unnoticed by both
      simple checksums. */
  lemma SwapUndetected(data: seq<bv8>, i: nat, j: nat)
    requires i < |data| && j < |data|
    ensures SumChecksum(SwapBytes(data, i, j)) == SumChecksum(data)
    ensures WrappingSum(SwapBytes(data, i, j)) == WrappingSum(data)
    ensures XorChecksum(SwapBytes(data, i, j)) == XorChecksum(data)
  {
    var swapped := SwapBytes(data, i, j);
    SwapPermutes(data, i, j);
    PermutationInvariant(data, swapped);
    WrappingSumAgrees(data);
    WrappingSumAgrees(swapped);
  }

  // ---------------------------------------------------------------------
  // Single-byte changes
  // ---------------------------------------------------------------------

  /** Flipping the bits `m` of one byte flips exactly the bits `m` of the
      XOR checksum. */
  lemma FlipChangesXorByMask(data: seq<bv8>, i: nat, m: bv8)
    requires i < |data|
    ensures XorChecksum(data[i := data[i] ^ m]) == XorChecksum(data) ^ m
  {
    var changed := data[i := data[i] ^ m];
    PullOutXor(data, i);
    PullOutXor(changed, i);
    assert RemoveAt(changed, i) == RemoveAt(data, i);
  }

  /** The XOR checksum catches every error confined to one byte. */
  lemma XorDetectsSingleByteError(data: seq<bv8>, i: nat, m: bv8)
    requires i < |data| && m != 0
    ensures XorChecksum(data[i := data[i] ^ m]) != XorChecksum(data)
  {
    FlipChangesXorByMask(data, i, m);
  }

  /** The same bit flipped in two different bytes cancels out of the XOR
      checksum: it misses errors that hit one bit position an even number
      of times. */
  lemma XorMissesPairedFlip(data: seq<bv8>, i: nat, j: nat, m: bv8)
    requires i < |data| && j < |data| && i != j
    ensures XorChecksum(data[i := data[i] ^ m][j := data[j] ^ m]) == XorChecksum(data)
  {
    var once := data[i := data[i] ^ m];
    FlipChangesXorByMask(data, i, m);
    FlipChangesXorByMask(once, j, m);
    assert once[j] == data[j];
    assert XorChecksum(data) ^ m ^ m == XorChecksum(data);
  }

  /** Replacing one byte moves the sum checksum by the difference, modulo 256. */
  lemma ReplaceChangesSumByDifference(data: seq<bv8>, i: nat, v: bv8)
    requires i < |data|
    ensures SumChecksum(data[i := v]) as int
         == (SumChecksum(data) as int - data[i] as int + v as int) % 256
  {
    ReplaceSum(data, i, v);
    SumChecksumIsSumMod256(data);
    SumChecksumIsSumMod256(data[i := v]);
    ShiftResidue(ByteSum(data), v as int - data[i] as int);
  }

  /** Replacing one byte changes the true sum by the difference. */
  lemma ReplaceSum(data: seq<bv8>, i: nat, v: bv8)
    requires i < |data|
    ensures ByteSum(data[i := v]) + data[i] as int == ByteSum(data) + v as int
  {
    PullOutSum(data, i);
    PullOutSum(data[i := v], i);
    assert RemoveAt(data[i := v], i) == RemoveAt(data, i);
  }

  /** Adding to a value adds to its residue. */
  lemma ShiftResidue(x: int, d: int)
    ensures (x + d) % 256 == (x % 256 + d) % 256
  {
  }

  /** Residues of two numbers less than 256 apart differ unless the numbers do. */
  lemma ResidueMoves(s: int, d: int)
    requires 0 <= s < 256 && -256 < d < 256 && d != 0
    ensures (s + d) % 256 != s
  {
  }

  /** The sum checksum catches every error confined to one byte. */
  lemma SumDetectsSingleByteError(data: seq<bv8>, i: nat, v: bv8)
    requires i < |data| && v != data[i]
    ensures SumChecksum(data[i := v]) != SumChecksum(data)
  {
    ReplaceChangesSumByDifference(data, i, v);
    ResidueMoves(SumChecksum(data) as int, v as int - data[i] as int);
  }

  /** Errors in two bytes that keep their total, such as +1 in one and -1 in
      the other, cancel out of the sum checksum. */
  lemma SumMissesCancellingErrors(data: seq<bv8>, i: nat, j: nat, u: bv8, w: bv8)
    requires i < |data| && j < |data| && i != j
    requires u as int + w as int == data[i] as int + data[j] as int
    ensures SumChecksum(data[i := u][j := w]) == SumChecksum(data)
  {
    var once := data[i := u];
    ReplaceSum(data, i, u);
    ReplaceSum(once, j, w);
    SumChecksumIsSumMod256(data);
    SumChecksumIsSumMod256(once[j := w]);
  }

  // ---------------------------------------------------------------------
  // Arbitrary error patterns
  // ---------------------------------------------------------------------

  /** The byte with only bit `k` set. */
  function BitMask(k: nat): (m: bv8)
    requires k < 8
    ensures m != 0 && m & (m - 1) == 0
  {
    (1 as bv8) << k
  }

  /** The number of bytes of `e` that have bit `k` set. */
  function BytesWithBit(e: seq<bv8>, k: nat): nat
    requires k < 8
    decreases |e|
  {
    if |e| == 0 then 0
    else BytesWithBit(e[..|e| - 1], k) + (if e[|e| - 1] & BitMask(k) != 0 then 1 else 0)
  }

  /** Whether every bit position is set in an even number of bytes. */
  predicate EvenInEveryBit(e: seq<bv8>) {
    forall k :: 0 <= k < 8 ==> BytesWithBit(e, k) % 2 == 0
  }

  /** The XOR checksum of a message corrupted by the error pattern `e` is
      the checksum of the message plus (XOR) the checksum of the pattern. */
  lemma {:induction false} XorOfCorruption(data: seq<bv8>, e: seq<bv8>)
    requires |e| == |data|
    ensures XorChecksum(Xor(data, e)) == Add(XorChecksum(data), XorChecksum(e))
    decreases |data|
  {
    if |data| > 0 {
      var n := |data| - 1;
      var c := Xor(data, e);
      XorPrefix(data, e, n);
      XorOfCorruption(data[..n], e[..n]);
      XorLast(c);
      XorLast(data);
      XorLast(e);
      XorInterleave(XorChecksum(c), XorChecksum(c[..n]), c[n],
                    XorChecksum(data), XorChecksum(data[..n]), data[n],
                    XorChecksum(e), XorChecksum(e[..n]), e[n]);
    }
  }

  /** A prefix of a corrupted message is the corrupted prefix. */
  lemma XorPrefix(a: seq<bv8>, b: seq<bv8>, n: nat)
    requires |b| == |a| && n <= |a|
    ensures Xor(a, b)[..n] == Xor(a[..n], b[..n])
  {
  }

  /** The XOR checksum with its last byte taken off. */
  lemma XorLast(data: seq<bv8>)
    requires |data| > 0
    ensures XorChecksum(data) == Add(XorChecksum(data[..|data| - 1]), data[|data| - 1])
  {
  }

  /** One step of `XorOfCorruption`: if the corrupted prefix checks to the
      sum of the prefixes' checksums, so does the whole. */
  lemma XorInterleave(c: bv8, cPre: bv8, cLast: bv8, d: bv8, dPre: bv8, dLast: bv8,
                      e: bv8, ePre: bv8, eLast: bv8)
    requires c == Add(cPre, cLast) && d == Add(dPre, dLast) && e == Add(ePre, eLast)
    requires cPre == Add(dPre, ePre) && cLast == Add(dLast, eLast)
    ensures c == Add(d, e)
  {
  }

  /** Bit `k` of the XOR checksum records whether an odd number of bytes
      have bit `k` set. */
  lemma {:induction false} XorBitIsParity(e: seq<bv8>, k: nat)
    requires k < 8
    ensures (XorChecksum(e) & BitMask(k) != 0) <==> BytesWithBit(e, k) % 2 == 1
    decreases |e|
  {
    if |e| > 0 {
      var n := |e| - 1;
      XorBitIsParity(e[..n], k);
      BitOfXor(XorChecksum(e[..n]), e[n], BitMask(k));
    }
  }

  /** A single bit of an XOR is the exclusive or of the bits. */
  lemma BitOfXor(a: bv8, b: bv8, m: bv8)
    requires m != 0 && m & (m - 1) == 0
    ensures ((a ^ b) & m != 0) == ((a & m != 0) != (b & m != 0))
  {
  }

  /** A byte is zero exactly when none of its eight bits is set. */
  lemma ZeroIffNoBitSet(x: bv8)
    ensures x == 0 <==> forall k :: 0 <= k < 8 ==> x & BitMask(k) == 0
  {
    if forall k :: 0 <= k < 8 ==> x & BitMask(k) == 0 {
      assert x & BitMask(0) == 0 && x & BitMask(1) == 0 && x & BitMask(2) == 0;
      assert x & BitMask(3) == 0 && x & BitMask(4) == 0 && x & BitMask(5) == 0;
      assert x & BitMask(6) == 0 && x & BitMask(7) == 0;
    }
  }

  /** The XOR checksum misses the error pattern `e` exactly when the
      pattern's own XOR is zero, that is, when every bit position is
      changed in an even number of bytes. */
  lemma XorMissesExactly(data: seq<bv8>, e: seq<bv8>)
    requires |e| == |data|
    ensures XorChecksum(Xor(data, e)) == XorChecksum(data) <==> XorChecksum(e) == 0
    ensures XorChecksum(Xor(data, e)) == XorChecksum(data) <==> EvenInEveryBit(e)
  {
    XorOfCorruption(data, e);
    ZeroIffNoBitSet(XorChecksum(e));
    forall k | 0 <= k < 8
      ensures (XorChecksum(e) & BitMask(k) == 0) <==> BytesWithBit(e, k) % 2 == 0
    {
      XorBitIsParity(e, k);
    }
  }

  /** The total of the byte-by-byte changes from `data` to `changed`. */
  function SumOfChanges(data: seq<bv8>, changed: seq<bv8>): int
    requires |changed| == |data|
    decreases |data|
  {
    if |data| == 0 then 0
    else SumOfChanges(data[..|data| - 1], changed[..|data| - 1])
         + (changed[|data| - 1] as int - data[|data| - 1] as int)
  }

  /** The changes add up to the change of the true sum. */
  lemma {:induction false} SumOfChangesIsDifference(data: seq<bv8>, changed: seq<bv8>)
    requires |changed| == |data|
    ensures SumOfChanges(data, changed) == ByteSum(changed) - ByteSum(data)
    decreases |data|
  {
    if |data| > 0 {
      SumOfChangesIsDifference(data[..|data| - 1], changed[..|data| - 1]);
    }
  }

  /** Two numbers have the same residue modulo 256 exactly when their
      difference is a multiple of 256. */
  lemma SameResidue(a: int, b: int)
    ensures a % 256 == b % 256 <==> (b - a) % 256 == 0
  {
    var qa, qb := a / 256, b / 256;
    assert b - a == 256 * (qb - qa) + (b % 256 - a % 256);
  }

  /** The sum checksum misses a corruption exactly when the changes to the
      bytes add up to a multiple of 256: errors that sum to zero, byte
      arithmetic being modulo 256. */
  lemma SumMissesExactly(data: seq<bv8>, changed: seq<bv8>)
    requires |changed| == |data|
    ensures SumChecksum(changed) == SumChecksum(data) <==> SumOfChanges(data, changed) % 256 == 0
  {
    SumOfChangesIsDifference(data, changed);
    SumChecksumIsSumMod256(data);
    SumChecksumIsSumMod256(changed);
    SameResidue(ByteSum(data), ByteSum(changed));
  }

  /** On an empty message both simple checksums are 0. */
  lemma EmptyChecksums()
    ensures SumChecksum([]) == 0 && WrappingSum([]) == 0 && XorChecksum([]) == 0
  {
  }
}
