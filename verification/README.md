# CRC-8, simple checksums, swaps and bit masks

A Dafny model of four C++ teaching programs, with proofs of what each one
promises:

- **crc-8.cpp and checksums.cpp**: an 8-bit cyclic redundancy check with
  generator polynomial x^8 + x^2 + x + 1 (0x07), initial register 0x00, most
  significant bit first, and no reflection or final XOR. The same
  `crc8_checksum` appears in both files.
  - `demonstrate_crc8` traces the register bit by bit.
  - Two simpler checksums are compared against it: a byte sum kept to its low
    byte, and the XOR of all bytes.
  - The comparison runs on "AB", on a seven-byte sample, and on "Hello" next
    to three corrupted copies.
- **swap_techniques.cpp**: thirteen ways of exchanging two `int`s. Some are
  correct, some correct only without overflow, one correct only for exact
  division, and two (AND, OR) are never correct unless the values are equal.
- **bitwise_and.cpp**: uses of `&`. These are colour channels, a packed
  protocol byte, modulo by eight, ASCII upper-casing, odd and power-of-two
  tests, low-byte and single-bit masks, and flag sets.

Modules, one concept each:

| module | file | content |
|---|---|---|
| `Crc8Engine` | crc8.dfy | the register, the byte loop, the traced demonstration, the worked examples |
| `Crc8BitSerial` | crc8_serial.dfy | an independent reference: bit-serial modulo-2 division, message bits fed in at the top of the register |
| `Crc8Detection` | crc8_detection.dfy | linearity over GF(2) and the error-detection guarantees |
| `Checksums` | checksums.dfy | sum and XOR checksums against unbounded references |
| `ChecksumDemos` | demos.dfy | the three-way comparisons on the fixed messages |
| `CppInt` | int32.dfy | the 32-bit two's-complement `int`, truncating division, bitwise operators |
| `Swaps` | swaps.dfy | the swap techniques |
| `BitwiseAnd` | bitwise_and.dfy | the masking examples |

Modelling choices:

- Bytes and registers are `bv8`, so a left shift drops bit 7 just as storing
  the promoted `int` back into a `uint8_t` does.
- The 32-bit accumulator of `sum_checksum` is a `nat` reduced modulo 2^32 at
  every step.
- `int` is a newtype over the 32-bit range.
  - Its bitwise operators act on the unsigned bit pattern, one binary digit at
    a time.
  - Its `/` truncates toward zero (`CppInt.Quot`), not Dafny's Euclidean
    division.
- Printing is left out. Each demonstration returns what it would print:
  - a byte trace for `demonstrate_crc8`;
  - a `Comparison` of three checksums;
  - a `Pair` per swap technique;
  - a `DivisionOutcome` for the swap that can report an error.

## Model

| member | source | states |
|---|---|---|
| Crc8Engine.Crc8Checksum | crc-8.cpp:16-29 | The nested byte and bit loops return the checksum of the whole message: after each byte the register holds the checksum of the prefix read so far |
| Crc8Engine.EmptyInput | crc-8.cpp:18-28 | A message with no bytes leaves the register untouched, so its checksum is 0x00 |
| Crc8Engine.BitStepBits | crc-8.cpp:21-25 | One pass of the inner loop shifts the register left; bits 7..3 are the shifted bits, bit 0 is the MSB that fell off, and bits 2..1 are flipped exactly when it was set |
| Crc8Engine.StepsUnrolled | crc-8.cpp:20-26 | The inner loop over i = 0..7 applies the single-bit step exactly eight times |
| Crc8Engine.Crc8FromAppend | checksums.cpp:38-48 | The checksum of a concatenation is obtained by continuing the byte loop over the second part from the register the first part left |
| Crc8Engine.Crc8Snoc | checksums.cpp:39-47 | One more byte is one more XOR-and-eight-shifts step applied to the previous checksum |
| Crc8Engine.ByteTraceAgrees | crc-8.cpp:56-87 | Any report of one byte whose eight bit steps each shift, and XOR 0x07 exactly when the MSB was set, ends in the register the byte loop computes |
| Crc8Engine.TraceAgrees | crc-8.cpp:47-88 | In every consistent trace of a message, the register after byte j is the checksum of the first j + 1 bytes; the last one is the message checksum |
| Crc8Engine.TraceByte | crc-8.cpp:52-87 | One pass of the demonstration's outer loop produces a consistent eight-step report for the given register and input byte |
| Crc8Engine.DemonstrateCrc8 | crc-8.cpp:39-92 | The demonstration produces one consistent report per input byte, chained from 0x00, and finishes with the checksum `crc8_checksum` returns |
| Crc8Engine.Example1Trace | crc-8.cpp:399-435 | For [0x01, 0x02] the register is 0x07 after the first byte and 0x1B at the end |
| Crc8Engine.Example2Trace | crc-8.cpp:474-510 | For "AB" the register is 0xC0 after 'A' and 0x87 at the end |
| Crc8Engine.HelloCrc | crc-8.cpp:543 | The checksum of "Hello" is 0xF6 |
| Crc8BitSerial.FeedBit | crc-8.cpp:271-290 | Feeding one message bit shifts the remainder left; the new low bit is the outgoing top bit plus the message bit modulo 2 |
| Crc8BitSerial.StepsAreDivision | crc-8.cpp:266-290 | After n bit steps of the register t ^ rest, the top n bits of rest have been divided into t one at a time, and the remaining bits of rest wait shifted up by n places |
| Crc8BitSerial.UpdateLeavesShiftedByte | crc-8.cpp:266-290 | After the eight steps of one byte the register is the remainder of dividing in the byte's eight bits, XOR the byte shifted eight places |
| Crc8BitSerial.UpdateIsDivision | crc-8.cpp:266-290 | XOR-ing a byte in and then shifting eight times gives the same register as dividing its eight bits in one at a time, most significant first |
| Crc8BitSerial.Crc8IsDivision | crc-8.cpp:292-297 | For every starting register and message, the byte loop computes the remainder of bit-serial modulo-2 division by x^8 + x^2 + x + 1 |
| Crc8BitSerial.DivideAppend | crc-8.cpp:271-290 | Bit-serial division of a concatenation continues from the remainder of the first part |
| Crc8Detection.BitStepLinear | crc-8.cpp:277-290 | A shift step of the XOR of two registers is the XOR of their shift steps |
| Crc8Detection.UpdateLinear | crc-8.cpp:267-269 | Processing the XOR of two bytes from the XOR of two registers gives the XOR of the two results |
| Crc8Detection.Crc8FromLinear | crc-8.cpp:292-295 | The whole byte loop is linear over GF(2) in the starting register and the data together |
| Crc8Detection.Crc8OfCorruption | crc-8.cpp:299-304 | The checksum of a message corrupted by error pattern e is the original checksum XOR the checksum of e alone |
| Crc8Detection.UpdateInjective | crc-8.cpp:299-302 | Two registers fed the same byte end equal exactly when they started equal |
| Crc8Detection.Crc8FromInjective | crc-8.cpp:299-302 | Two registers fed the same message end equal exactly when they started equal, so a difference in the register is never lost |
| Crc8Detection.SingleByteErrorDetected | crc-8.cpp:307-308 | Flipping any nonzero set of bits inside one byte always changes the checksum |
| Crc8Detection.SingleBitErrorDetected | crc-8.cpp:307-308 | Flipping any one bit of any byte always changes the checksum |
| Crc8Detection.BitStepParity | crc-8.cpp:277-285 | A shift step keeps the parity of the register's set bits: the dropped MSB is paid for by the three set bits of 0x07 |
| Crc8Detection.ParityInvariant | crc-8.cpp:311 | After the byte loop, the register's bit parity is the starting register's parity plus the parity of all message bits |
| Crc8Detection.OddErrorsDetected | crc-8.cpp:311 | Any error pattern flipping an odd number of bits anywhere in the message changes the checksum |
| Crc8Detection.BurstChecksumNonzero | crc-8.cpp:309-312 | An error pattern confined to eight consecutive message bits, with at least one bit set, never checksums to 0x00 |
| Crc8Detection.BurstErrorDetected | crc-8.cpp:309-312 | Every burst of at most eight consecutive bits is detected, whether it sits in one byte or straddles two; two-bit errors at most seven positions apart (inside eight consecutive bits) are among them |
| Checksums.SumChecksumLoop | checksums.cpp:15-22 | The 32-bit accumulating loop of `sum_checksum`, cut to its low byte, returns the arithmetic byte sum modulo 256 |
| Checksums.Sum32IsReducedSum | checksums.cpp:16-19 | The wrapping 32-bit accumulator holds the true byte sum modulo 2^32 |
| Checksums.SumChecksumIsSumMod256 | checksums.cpp:20-21 | Keeping the low byte of the 32-bit accumulator gives the byte sum modulo 256 |
| Checksums.WrappingSumLoop | crc-8.cpp:97-100 | The 8-bit accumulator that wraps at every addition returns the byte sum modulo 256 |
| Checksums.WrappingSumIsSumMod256 | crc-8.cpp:97-100 | Wrapping at every byte loses nothing modulo 256 |
| Checksums.WrappingSumAgrees | crc-8.cpp:97-100 | The 8-bit loop of the comparison demos and `sum_checksum` give the same value on every message |
| Checksums.XorChecksumLoop | checksums.cpp:26-32 | The loop of `xor_checksum` returns the XOR fold of the bytes |
| Checksums.SumAppend | checksums.cpp:17-19 | The byte sum of a concatenation is the sum of the parts' sums |
| Checksums.XorAppend | checksums.cpp:28-30 | The XOR of a concatenation is the XOR of the parts' XORs |
| Checksums.EmptyChecksums | checksums.cpp:16-31 | On an empty message the sum checksum, the 8-bit sum and the XOR checksum are all 0 |
| Checksums.PullOutSum | checksums.cpp:17-19 | Any byte can be taken out of the message and added last |
| Checksums.PullOutXor | checksums.cpp:28-30 | Any byte can be taken out of the message and XORed in last |
| Checksums.PermutationInvariant | crc-8.cpp:564 | Two messages holding the same bytes in any order have equal byte sums, sum checksums and XOR checksums |
| Checksums.SwapPermutes | crc-8.cpp:564 | Exchanging two bytes keeps the multiset of bytes |
| Checksums.SwapUndetected | crc-8.cpp:564 | Exchanging any two bytes changes neither sum (32-bit or 8-bit) nor the XOR checksum |
| Checksums.FlipChangesXorByMask | checksums.cpp:25-31 | Flipping bits m of one byte flips exactly bits m of the XOR checksum |
| Checksums.XorDetectsSingleByteError | checksums.cpp:25 | The XOR checksum detects every nonzero change confined to one byte |
| Checksums.XorOfCorruption | crc-8.cpp:247 | The XOR checksum of a message corrupted by error pattern e is the original XOR checksum XOR that of e |
| Checksums.XorBitIsParity | crc-8.cpp:316 | Bit k of the XOR checksum is set exactly when an odd number of bytes have bit k set |
| Checksums.XorMissesExactly | crc-8.cpp:563 | The XOR checksum misses an error pattern exactly when its XOR is zero, that is, exactly when every bit position is changed in an even number of bytes |
| Checksums.XorMissesPairedFlip | crc-8.cpp:563 | The same bits flipped in two different bytes leave the XOR checksum unchanged |
| Checksums.ReplaceChangesSumByDifference | crc-8.cpp:315 | Replacing one byte moves the sum checksum by the difference of the bytes, modulo 256 |
| Checksums.SumDetectsSingleByteError | crc-8.cpp:315 | The sum checksum detects every change confined to one byte |
| Checksums.SumOfChangesIsDifference | crc-8.cpp:315 | The byte-by-byte changes of a corruption add up to the change of the true byte sum |
| Checksums.SumMissesExactly | crc-8.cpp:315 | The sum checksum misses a corruption exactly when the byte changes add up to a multiple of 256, that is, to zero in byte arithmetic |
| Checksums.SumMissesCancellingErrors | crc-8.cpp:562 | Changes to two bytes that keep their total, such as +1 in one and -1 in the other, leave the sum checksum unchanged |
| ChecksumDemos.AllChecksums | checksums.cpp:60-70 | The three checksums of a message, the sum being the byte sum modulo 256 |
| ChecksumDemos.SimpleChecksumDemo | crc-8.cpp:95-112 | The wrapping 8-bit sum, the XOR loop and the CRC of `simple_checksum_demo` agree with the three checksums of checksums.cpp |
| ChecksumDemos.ABChecksums | crc-8.cpp:516-518 | For "AB": sum 0x83, XOR 0x03, CRC 0x87 |
| ChecksumDemos.SampleChecksums | checksums.cpp:53-70 | For the sample 10 20 30 40 55 AA FF: sum 0x9E, XOR 0x40, CRC 0xA8 |
| ChecksumDemos.HelloChecksums | crc-8.cpp:531-543 | For "Hello": sum 0xF4, XOR 0x42, CRC 0xF6 |
| ChecksumDemos.HemloChecksums | crc-8.cpp:532-544 | For "Hemlo": sum 0xF5, XOR 0x43, CRC 0x9D |
| ChecksumDemos.HelolChecksums | crc-8.cpp:533-545 | For "Helol": sum 0xF4, XOR 0x42, CRC 0xC0 |
| ChecksumDemos.HElloChecksums | crc-8.cpp:534-546 | For "HEllo": sum 0xD4, XOR 0x62, CRC 0x38 |
| ChecksumDemos.ErrorDetectionVerdicts | crc-8.cpp:122-175 | The demo's wrapping 8-bit sum (and so `sum_checksum`) and the XOR detect "Hemlo" and "HEllo" but not the exchange in "Helol"; the CRC detects all three |
| ChecksumDemos.HelolIsSwap | crc-8.cpp:118 | "Helol" is "Hello" with its last two bytes exchanged, which is why the sum and XOR cannot tell them apart |
| CppInt.BitOfBitwise | swap_techniques.cpp:42-44 | On bit patterns, an operator that maps two clear bits to a clear bit computes each result bit from the two operand bits at the same position |
| CppInt.BitOfBitwiseInt | swap_techniques.cpp:42-44 | For two `int`s, bit j of `x ^ y`, `x & y` or `x \| y` is the operator applied to bit j of x and bit j of y |
| CppInt.BitNot | bitwise_and.cpp:149 | The pattern of `~x` is 2^32 - 1 minus the pattern of x |
| CppInt.BitOfBitNot | bitwise_and.cpp:149 | Each of the 32 bits of `~x` is the inverted bit of x |
| CppInt.XorCancels | swap_techniques.cpp:42-44 | XOR-ing the same pattern twice gives back the original |
| CppInt.Quot | swap_techniques.cpp:81 | `int` division truncates toward zero: the quotient's magnitude is the quotient of the magnitudes, and it is negative only when the signs differ |
| CppInt.Remainder | bitwise_and.cpp:56 | The C++ `%`: smaller in magnitude than the divisor, and quotient times divisor plus remainder is the dividend |
| CppInt.AndLowMask | bitwise_and.cpp:131 | AND with 2^k - 1 keeps the value modulo 2^k |
| CppInt.AndPredecessor | bitwise_and.cpp:111 | For a positive value u, u & (u - 1) is zero exactly when u is a power of two |
| Swaps.StdSwap | swap_techniques.cpp:100-103 | The reference every technique is measured against: `std::swap` leaves the old y in x and the old x in y |
| Swaps.StdSwapTwice | swap_techniques.cpp:100-103 | Exchanging twice gives back the original pair, so the reference loses no value |
| Swaps.XorSwapCorrect | swap_techniques.cpp:41-46 | Three XOR assignments leave the old x in y and the old y in x, for every pair of `int`s |
| Swaps.SwapWithXor | swap_techniques.cpp:41-46 | The XOR technique exchanges any two `int`s |
| Swaps.SwapWithThirdVariable | swap_techniques.cpp:48-53 | The temporary-variable technique exchanges any two `int`s |
| Swaps.SwapWithAddition | swap_techniques.cpp:55-60 | When x + y does not overflow, the addition technique exchanges the two |
| Swaps.SwapWithMultiplication | swap_techniques.cpp:62-67 | When both are nonzero and x * y does not overflow, the multiplication technique exchanges the two |
| Swaps.SwapWithSubtraction | swap_techniques.cpp:69-74 | When x - y does not overflow, the subtraction technique exchanges the two |
| Swaps.SwapWithDivision | swap_techniques.cpp:76-89 | The division technique reports an error exactly when either value is 0 or the magnitude of x is below that of y. Otherwise the new x is the old y, and the new y is the old x exactly when the magnitude of y divides that of x |
| Swaps.DivisionSteps | swap_techniques.cpp:81-87 | The truncated quotient is 0 exactly when the divisor is larger in magnitude. Multiplying it back cannot overflow, and it equals the dividend exactly for exact division. Dividing the product by the quotient recovers the divisor |
| Swaps.SwapWithBitwiseAnd | swap_techniques.cpp:91-93 | Prints x & y twice, which is the exchanged pair exactly when x == y |
| Swaps.SwapWithBitwiseOr | swap_techniques.cpp:95-97 | Prints x \| y twice, which is the exchanged pair exactly when x == y |
| Swaps.SwapWithTuple | swap_techniques.cpp:106-108 | Tuple assignment exchanges any two `int`s |
| Swaps.SwapWithPointers | swap_techniques.cpp:114-121 | Exchanging through two pointers to distinct variables exchanges any two `int`s |
| Swaps.SwapWithArray | swap_techniques.cpp:123-129 | Exchanging the two cells of an array exchanges any two `int`s |
| Swaps.SwapWithExchange | swap_techniques.cpp:131-134 | `x = std::exchange(y, x)` exchanges any two `int`s |
| Swaps.TenTwentyBits | swap_techniques.cpp:23 | 10 and 20 share no bit: their AND is 0 and their OR is 30 |
| Swaps.MainExampleMoves | swap_techniques.cpp:23-37 | For a = 10, b = 20 the value-moving techniques print (20, 10) |
| Swaps.MainExampleXor | swap_techniques.cpp:25 | For 10 and 20 the XOR technique prints (20, 10) |
| Swaps.MainExampleSums | swap_techniques.cpp:27-29 | For 10 and 20 addition and subtraction print (20, 10) |
| Swaps.MainExampleArithmetic | swap_techniques.cpp:28-30 | For 10 and 20 multiplication prints (20, 10), and division reports the error because 10 / 20 truncates to 0 |
| Swaps.MainExampleBitwise | swap_techniques.cpp:31-32 | For 10 and 20, AND prints (0, 0) and OR prints (30, 30) |
| BitwiseAnd.UnpackArgb | bitwise_and.cpp:34-38 | Blue is the low byte of the word and alpha is its top byte |
| BitwiseAnd.PackUnpack | bitwise_and.cpp:34-38 | The four extracted channels, shifted back into place, rebuild the word |
| BitwiseAnd.UnpackPack | bitwise_and.cpp:34-38 | Extracting the channels of a packed word gives back every channel |
| BitwiseAnd.ColorExamples | bitwise_and.cpp:73-74 | 0xAABBCCDD splits into AA, BB, CC, DD, and the alpha of 0x80FF00FF is 0x80 |
| BitwiseAnd.DecodePacket | bitwise_and.cpp:82-85 | The extracted type, address and data fit their 2, 3 and 3 bits |
| BitwiseAnd.EncodeDecode | bitwise_and.cpp:82-85 | Every byte is the encoding of its three fields |
| BitwiseAnd.DecodeEncode | bitwise_and.cpp:82-85 | Fields within their widths survive encoding and decoding |
| BitwiseAnd.PacketExample | bitwise_and.cpp:82 | 0b10110110 decodes to type 2, address 6, data 6 |
| BitwiseAnd.WrapIndex | bitwise_and.cpp:56 | `index & 7` lies in 0..7 and is the index modulo 8, for negative indexes too |
| BitwiseAnd.WrapIndexIsRemainder | bitwise_and.cpp:56 | `index & 7` equals the C++ `index % 8` exactly when the index is non-negative or a multiple of 8 |
| BitwiseAnd.WrapExample | bitwise_and.cpp:55-56 | 13 & 7 is 5 |
| BitwiseAnd.ToUpper | bitwise_and.cpp:63-65 | `c & 0xDF` maps a lowercase ASCII letter to its uppercase one and leaves uppercase letters unchanged. The result is an uppercase letter exactly when the input was a letter |
| BitwiseAnd.ToUpperIdempotent | bitwise_and.cpp:65 | Applying the mask twice is applying it once |
| BitwiseAnd.ToUpperExamples | bitwise_and.cpp:64-65 | 'g' becomes 'G'; the digit '1' becomes the control character 0x11 |
| BitwiseAnd.IsOdd | bitwise_and.cpp:109 | `num & 1` is true exactly when num is odd, negative numbers included |
| BitwiseAnd.PowerOfTwoTest | bitwise_and.cpp:111 | `n && !(n & (n - 1))` is true exactly when n is a positive power of two |
| BitwiseAnd.PowerOfTwoCases | bitwise_and.cpp:111 | For nonzero n, n & (n - 1) is zero exactly when n is a positive power of two |
| BitwiseAnd.MathExamples | bitwise_and.cpp:107-111 | 42 is even and 64 is a power of two |
| BitwiseAnd.LowByte | bitwise_and.cpp:131 | `value & 0x00FF` lies in 0..255 and is the value modulo 256 |
| BitwiseAnd.Shl1 | bitwise_and.cpp:140 | `1 << k` has exactly bit k set |
| BitwiseAnd.TestBit | bitwise_and.cpp:140 | `value & (1 << k)` is nonzero exactly when bit k of value is set |
| BitwiseAnd.ClearBit | bitwise_and.cpp:149 | `value & ~(1 << k)` has bit k clear and every other bit as in value |
| BitwiseAnd.ClearBitValue | bitwise_and.cpp:149 | Clearing a set bit subtracts its weight from the bit pattern; clearing a clear bit changes nothing |
| BitwiseAnd.MaskExamples | bitwise_and.cpp:130-151 | For 0xABCD: low byte 0xCD, bit 3 set, 0xABC9 after clearing bit 2 |
| BitwiseAnd.TwoFlags | bitwise_and.cpp:165-178 | A flag set made by OR of two single-bit flags tests nonzero under AND for exactly those two flags |
| BitwiseAnd.FlagExamples | bitwise_and.cpp:93-101 | ALIVE \| VISIBLE is 3, FEATURE_A \| FEATURE_C is 5, READ \| WRITE is 6, and none of them holds its third flag |

## Left out

- Printing is not modelled. That covers every `std::cout` and `printf` line, the `print_byte` helper and the narrative text of both `main` functions. Each demonstration returns the values it would print.
- The standard library's own code for `std::swap`, `std::tie`/`std::make_tuple` and `std::exchange` is not modelled. Each is modelled by what it does to the two values.
- The preprocessor fallbacks only print a message. They are the pre-C++17 branch of the tuple technique (swap_techniques.cpp:109-111) and the pre-C++14 branch of the exchange technique (swap_techniques.cpp:135-137). The model follows the C++17 tuple branch (swap_techniques.cpp:106-108) and the C++14 exchange branch (swap_techniques.cpp:132-134).
- The unused `int buffer[8]` (bitwise_and.cpp:54) is left out. So is the "CRC-like" mask `data & 0x0F` (bitwise_and.cpp:45-47), a single constant AND that nothing else uses.
- Signed overflow in the swap techniques and in `1 << k` is undefined behaviour in C++. So is `INT_MIN / -1` in the division technique. Each appears as a precondition, not as a modelled result.
- BitwiseAnd.Shl1: requires k < 31, because `1 << 31` and beyond shift into or past the sign bit of `int`.
- BitwiseAnd.PowerOfTwoTest: excludes the least `int`, for which `n - 1` overflows.
- Swaps.SwapWithMultiplication: requires both values nonzero. With y == 0 the first division is by zero. With x == 0 the second division is by x * y / y == 0.
- BitwiseAnd.TwoFlags: covers a set of two flags, the size used at bitwise_and.cpp:96, 119, 168 and 196. Larger sets are not stated.
- The `uint8_t` flag variables (`player_state`, `feature_mask`) are promoted to `int` in every `&` and `|`. The model computes them as `int`, which gives the same values for flags below 0x100.
- The ASCII case mask is modelled on bytes (`bv8`). The `char` signedness of the platform does not matter for `& 0xDF` on 7-bit characters.
- Checksums.XorChecksumLoop: states only the final result. What a single byte contributes is stated by Checksums.PullOutXor and Checksums.FlipChangesXorByMask.
- Two claims in the program's closing text are not stated. One is "all double-bit errors for certain message lengths" (crc-8.cpp:240), which names no lengths. The other is "most longer burst errors with high probability" (crc-8.cpp:243), which is a probabilistic statement. Double-bit errors at most seven positions apart (inside eight consecutive bits) are covered by Crc8Detection.BurstErrorDetected; pairs further apart are not stated.
- The general remarks of crc-8.cpp:299-304 ("every bit potentially affects every bit of the CRC") are too vague to state. The precise forms modelled are linearity and the single-bit, odd-count and burst guarantees.
- The checksum of the seven-byte sample in checksums.cpp is not printed in the source text. The model proves the value the code computes: 0xA8, with sum 0x9E and XOR 0x40.
