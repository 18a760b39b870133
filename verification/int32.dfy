/**
  The C++ `int` the repository's examples compute with: a 32-bit
  two's-complement integer.

  Arithmetic stays on mathematical integers; a result outside the 32-bit
  range is undefined behaviour in C++, so the members that model an
  operation require it to be in range.  Division truncates toward zero.
  The bitwise operators `&`, `|`, `^` and `~` act on the bit pattern,
  which is modelled as the unsigned number the pattern denotes, taken apart
  one binary digit at a time.
 */
module CppInt {

  // ---------------------------------------------------------------------
  // 32-bit signed integers
  // ---------------------------------------------------------------------

  const MinInt32: int := -0x8000_0000
  const MaxInt32: int := 0x7FFF_FFFF

  /** A C++ `int`. */
  newtype Int32 = x: int | -0x8000_0000 <= x < 0x8000_0000

  predicate InRange(v: int) {
    MinInt32 <= v <= MaxInt32
  }

  /** The number of 32-bit patterns. */
  const Modulus: nat := 0x1_0000_0000

  /** The bit pattern of `x`, read as an unsigned number. */
  function Unsigned(x: Int32): (u: nat)
    ensures u < Modulus
    ensures u == x as int || u == x as int + Modulus
  {
    (x as int) % Modulus
  }

  /** The `int` whose bit pattern, read unsigned, is `u`. */
  function Signed(u: nat): (x: Int32)
    requires u < Modulus
    ensures x as int == u || x as int == u - Modulus
  {
    if u < 0x8000_0000 then u as Int32 else (u - Modulus) as Int32
  }

  /** Reading a value's bit pattern back gives the value. */
  lemma SignedUnsigned(x: Int32)
    ensures Signed(Unsigned(x)) == x
  {
  }

  /** Every bit pattern is the pattern of exactly one `int`. */
  lemma UnsignedSigned(u: nat)
    requires u < Modulus
    ensures Unsigned(Signed(u)) == u
  {
  }

  // ---------------------------------------------------------------------
  // Bitwise operators, one binary digit at a time
  // ---------------------------------------------------------------------

  /** The result bit of `&`, `|` and `^` for a pair of operand bits. */
  function AndBit(p: bool, q: bool): bool { p && q }
  function OrBit(p: bool, q: bool): bool { p || q }
  function XorBit(p: bool, q: bool): bool { p != q }

  /** `op` applied to every pair of corresponding binary digits of `a` and `b`
      (leading zeros included) up to the highest nonzero one. */
  function BitwiseNat(op: (bool, bool) -> bool, a: nat, b: nat): nat
    decreases a + b
  {
    if a == 0 && b == 0 then 0
    else 2 * BitwiseNat(op, a / 2, b / 2) + (if op(a % 2 == 1, b % 2 == 1) then 1 else 0)
  }

  function Pow2(k: nat): (p: nat)
    ensures p >= 1
  {
    if k == 0 then 1 else 2 * Pow2(k - 1)
  }

  /** A bitwise result has no more binary digits than its operands. */
  lemma {:induction false} BitwiseBound(op: (bool, bool) -> bool, a: nat, b: nat, k: nat)
    requires a < Pow2(k) && b < Pow2(k)
    ensures BitwiseNat(op, a, b) < Pow2(k)
    decreases k
  {
    if k > 0 && !(a == 0 && b == 0) {
      BitwiseBound(op, a / 2, b / 2, k - 1);
    }
  }

  /** Every pair of operands, zero included, splits into its low digit and
      the rest, as long as the operator maps two zero bits to zero. */
  lemma BitwiseDigits(op: (bool, bool) -> bool, a: nat, b: nat)
    requires !op(false, false)
    ensures BitwiseNat(op, a, b)
         == 2 * BitwiseNat(op, a / 2, b / 2) + (if op(a % 2 == 1, b % 2 == 1) then 1 else 0)
  {
  }

  lemma Pow2Is32Bits()
    ensures Pow2(8) == 256
    ensures Pow2(31) == 0x8000_0000
    ensures Pow2(32) == Modulus
  {
    assert Pow2(4) == 16;
    assert Pow2(8) == 256 by {
      assert Pow2(5) == 32 && Pow2(6) == 64 && Pow2(7) == 128;
    }
    assert Pow2(12) == 0x1000 by {
      assert Pow2(9) == 0x200 && Pow2(10) == 0x400 && Pow2(11) == 0x800;
    }
    assert Pow2(16) == 0x1_0000 by {
      assert Pow2(13) == 0x2000 && Pow2(14) == 0x4000 && Pow2(15) == 0x8000;
    }
    assert Pow2(20) == 0x10_0000 by {
      assert Pow2(17) == 0x2_0000 && Pow2(18) == 0x4_0000 && Pow2(19) == 0x8_0000;
    }
    assert Pow2(24) == 0x100_0000 by {
      assert Pow2(21) == 0x20_0000 && Pow2(22) == 0x40_0000 && Pow2(23) == 0x80_0000;
    }
    assert Pow2(28) == 0x1000_0000 by {
      assert Pow2(25) == 0x200_0000 && Pow2(26) == 0x400_0000 && Pow2(27) == 0x800_0000;
    }
    assert Pow2(29) == 0x2000_0000 && Pow2(30) == 0x4000_0000 && Pow2(31) == 0x8000_0000;
  }

  /** A C++ bitwise operator on two `int`s. */
  function Bitwise(op: (bool, bool) -> bool, x: Int32, y: Int32): (r: Int32)
    ensures Unsigned(r) == BitwiseNat(op, Unsigned(x), Unsigned(y))
  {
    Pow2Is32Bits();
    BitwiseBound(op, Unsigned(x), Unsigned(y), 32);
    UnsignedSigned(BitwiseNat(op, Unsigned(x), Unsigned(y)));
    Signed(BitwiseNat(op, Unsigned(x), Unsigned(y)))
  }

  /** XOR is symmetric. */
  lemma {:induction false} XorSymmetric(a: nat, b: nat)
    ensures BitwiseNat(XorBit, a, b) == BitwiseNat(XorBit, b, a)
    decreases a + b
  {
    if !(a == 0 && b == 0) {
      XorSymmetric(a / 2, b / 2);
    }
  }

  /** XOR-ing the same operand in twice cancels it. */
  lemma {:induction false} XorCancels(a: nat, b: nat)
    ensures BitwiseNat(XorBit, BitwiseNat(XorBit, a, b), b) == a
    decreases a + b
  {
    var c := BitwiseNat(XorBit, a, b);
    BitwiseDigits(XorBit, a, b);
    BitwiseDigits(XorBit, c, b);
    if !(a == 0 && b == 0) {
      XorCancels(a / 2, b / 2);
    }
  }

  /** AND and OR of a value with itself give the value back. */
  lemma {:induction false} AndOrIdempotent(a: nat)
    ensures BitwiseNat(AndBit, a, a) == a
    ensures BitwiseNat(OrBit, a, a) == a
    decreases a
  {
    if a != 0 {
      AndOrIdempotent(a / 2);
    }
  }

  /** `x & x` and `x | x` are `x`. */
  lemma AndOrSelf(x: Int32)
    ensures Bitwise(AndBit, x, x) == x && Bitwise(OrBit, x, x) == x
  {
    AndOrIdempotent(Unsigned(x));
    SignedUnsigned(x);
    SignedUnsigned(Bitwise(AndBit, x, x));
    SignedUnsigned(Bitwise(OrBit, x, x));
  }

  // ---------------------------------------------------------------------
  // Truncating division
  // ---------------------------------------------------------------------

  function Abs(v: int): nat {
    if v < 0 then -v else v
  }

  /** C++ integer division: the quotient rounded toward zero. */
  function Quot(a: int, b: int): (q: int)
    requires b != 0
    ensures Abs(q) == Abs(a) / Abs(b)
    ensures q == 0 || ((q < 0) <==> ((a < 0) != (b < 0)))
  {
    NatDivision(Abs(a), Abs(b));
    if (a < 0) == (b < 0) then Abs(a) / Abs(b) else -(Abs(a) / Abs(b))
  }

  /** Division of natural numbers stays natural. */
  lemma NatDivision(x: nat, y: nat)
    requires y > 0
    ensures x / y >= 0
  {
  }

  /** C++'s `%`, which truncates toward zero. */
  function Remainder(a: int, b: int): (r: int)
    requires b != 0
    ensures Abs(r) < Abs(b)
    ensures a == Quot(a, b) * b + r
  {
    a - Quot(a, b) * b
  }

  /** Dividing a product by one of its factors gives the other factor. */
  lemma ExactQuotient(k: int, b: int)
    requires b != 0
    ensures Quot(k * b, b) == k
  {
    var n, m := Abs(k), Abs(b);
    assert Abs(k * b) == n * m by {
      if k < 0 && b < 0 { assert k * b == (-k) * (-b); }
      else if k < 0 { assert k * b == -((-k) * b); }
      else if b < 0 { assert k * b == -(k * (-b)); }
    }
    ProductOverFactor(n, m);
  }

  lemma ProductOverFactor(n: nat, m: nat)
    requires m > 0
    ensures (n * m) / m == n
  {
    var q, r := (n * m) / m, (n * m) % m;
    assert n * m == q * m + r;
    if q < n {
      assert (n - q) * m == n * m - q * m;
      AtLeastOnce(n - q, m);
    } else if q > n {
      assert (q - n) * m == q * m - n * m;
      AtLeastOnce(q - n, m);
    }
  }

  /** A positive multiple of `m` is at least `m`. */
  lemma AtLeastOnce(k: nat, m: nat)
    requires k >= 1
    ensures k * m >= m
  {
    assert k * m == (k - 1) * m + m;
  }

  /** Multiplying the truncated quotient back gives the dividend exactly
      when the divisor divides it. */
  lemma QuotientTimesDivisor(a: int, b: int)
    requires b != 0
    ensures (Quot(a, b) * b == a) <==> (Abs(a) % Abs(b) == 0)
    ensures Abs(Quot(a, b) * b) <= Abs(a)
  {
    var n, m := Abs(a), Abs(b);
    var q := n / m;
    assert n == q * m + n % m;
    assert Abs(Quot(a, b) * b) == q * m by {
      var s := Quot(a, b);
      if s < 0 && b < 0 { assert s * b == (-s) * (-b); }
      else if s < 0 { assert s * b == -((-s) * b); }
      else if b < 0 { assert s * b == -(s * (-b)); }
    }
  }

  // ---------------------------------------------------------------------
  // Single bits
  // ---------------------------------------------------------------------

  /** Bit `k` of the binary representation of `u`. */
  function Bit(u: nat, k: nat): bool
    decreases k
  {
    if k == 0 then u % 2 == 1 else Bit(u / 2, k - 1)
  }

  /** A bitwise operator computes each result bit from the two operand
      bits in the same position. */
  lemma {:induction false} BitOfBitwise(op: (bool, bool) -> bool, a: nat, b: nat, j: nat)
    requires !op(false, false)
    ensures Bit(BitwiseNat(op, a, b), j) == op(Bit(a, j), Bit(b, j))
    decreases j
  {
    BitwiseDigits(op, a, b);
    if j > 0 {
      BitOfBitwise(op, a / 2, b / 2, j - 1);
    }
  }

  /** Zero has no bit set. */
  lemma {:induction false} BitOfZero(j: nat)
    ensures !Bit(0, j)
    decreases j
  {
    if j > 0 {
      BitOfZero(j - 1);
    }
  }

  /** `1 << k` has bit `k` set and no other. */
  lemma {:induction false} BitOfPow2(k: nat, j: nat)
    ensures Bit(Pow2(k), j) == (j == k)
    decreases j
  {
    if j > 0 {
      if k > 0 {
        BitOfPow2(k - 1, j - 1);
      } else {
        BitOfZero(j - 1);
      }
    }
  }

  /** A number of exactly `k + 1` binary digits has bit `k` set. */
  lemma {:induction false} TopBit(u: nat, k: nat)
    requires Pow2(k) <= u < Pow2(k + 1)
    ensures Bit(u, k)
    decreases k
  {
    if k > 0 {
      TopBit(u / 2, k - 1);
    }
  }

  /** The pattern `Pow2(n) - 1 - a` is `a` with its low `n` bits inverted. */
  lemma {:induction false} BitOfComplement(a: nat, n: nat, j: nat)
    requires a < Pow2(n) && j < n
    ensures Bit(Pow2(n) - 1 - a, j) == !Bit(a, j)
    decreases j
  {
    if j > 0 {
      BitOfComplement(a / 2, n - 1, j - 1);
    }
  }

  /** `u & 0` is 0. */
  lemma {:induction false} AndZero(u: nat)
    ensures BitwiseNat(AndBit, u, 0) == 0
    decreases u
  {
    if u != 0 {
      AndZero(u / 2);
    }
  }

  /** `u & (1 << k)` keeps bit `k` of `u` and nothing else. */
  lemma {:induction false} AndPow2(u: nat, k: nat)
    ensures BitwiseNat(AndBit, u, Pow2(k)) == if Bit(u, k) then Pow2(k) else 0
    decreases k
  {
    BitwiseDigits(AndBit, u, Pow2(k));
    if k == 0 {
      AndZero(u / 2);
    } else {
      AndPow2(u / 2, k - 1);
    }
  }

  /** If `u == q * m + r` with `0 <= r < m`, then `q` and `r` are the
      quotient and the remainder. */
  lemma DivModUnique(u: nat, m: nat, q: nat, r: nat)
    requires 0 <= r < m && u == q * m + r
    ensures u / m == q && u % m == r
  {
    var q', r' := u / m, u % m;
    assert u == q' * m + r';
    if q' < q {
      assert (q - q') * m == q * m - q' * m;
      AtLeastOnce(q - q', m);
    } else if q' > q {
      assert (q' - q) * m == q' * m - q * m;
      AtLeastOnce(q' - q, m);
    }
  }

  /** `u & ((1 << k) - 1)` is `u` modulo `2^k`: the fast modulo for
      power-of-two sizes. */
  lemma {:induction false} AndLowMask(u: nat, k: nat)
    ensures BitwiseNat(AndBit, u, Pow2(k) - 1) == u % Pow2(k)
    decreases k
  {
    if k == 0 {
      AndZero(u);
    } else {
      AndLowMask(u / 2, k - 1);
      LowMaskStep(u, Pow2(k - 1));
    }
  }

  /** The inductive step of `AndLowMask`, for a mask of `2 * p - 1`. */
  lemma LowMaskStep(u: nat, p: nat)
    requires p >= 1
    requires BitwiseNat(AndBit, u / 2, p - 1) == (u / 2) % p
    ensures BitwiseNat(AndBit, u, 2 * p - 1) == u % (2 * p)
  {
    LowMaskDigits(u, p);
    HalveMod(u, p);
  }

  /** The low digit of `u & (2p - 1)` is the low digit of `u`; the rest is
      `(u / 2) & (p - 1)`. */
  lemma LowMaskDigits(u: nat, p: nat)
    requires p >= 1
    ensures BitwiseNat(AndBit, u, 2 * p - 1) == 2 * BitwiseNat(AndBit, u / 2, p - 1) + u % 2
  {
    BitwiseDigits(AndBit, u, 2 * p - 1);
    assert (2 * p - 1) / 2 == p - 1 && (2 * p - 1) % 2 == 1;
  }

  /** The remainder modulo `2p` is twice the remainder of the half modulo
      `p`, plus the low bit. */
  lemma HalveMod(u: nat, p: nat)
    requires p > 0
    ensures u % (2 * p) == 2 * ((u / 2) % p) + u % 2
  {
    var q, r := (u / 2) / p, (u / 2) % p;
    assert u / 2 == q * p + r;
    assert 2 * (q * p) == q * (2 * p);
    DivModUnique(u, 2 * p, q, 2 * r + u % 2);
  }

  /** `~x`: every bit of the pattern inverted, which is -x - 1. */
  function BitNot(x: Int32): (r: Int32)
    ensures Unsigned(r) == Modulus - 1 - Unsigned(x)
  {
    (-(x as int) - 1) as Int32
  }

  /** Each bit of `~x` is the inverted bit of `x`. */
  lemma BitOfBitNot(x: Int32, j: nat)
    requires j < 32
    ensures Bit(Unsigned(BitNot(x)), j) == !Bit(Unsigned(x), j)
  {
    Pow2Is32Bits();
    BitOfComplement(Unsigned(x), 32, j);
  }

  /** A C++ bitwise operator on two `int`s computes each bit of the result
      from the two operand bits in the same position. */
  lemma BitOfBitwiseInt(op: (bool, bool) -> bool, x: Int32, y: Int32, j: nat)
    requires !op(false, false)
    ensures Bit(Unsigned(Bitwise(op, x, y)), j) == op(Bit(Unsigned(x), j), Bit(Unsigned(y), j))
  {
    BitOfBitwise(op, Unsigned(x), Unsigned(y), j);
  }

  /** A power of two: 1, 2, 4, 8, ... */
  predicate IsPowerOfTwo(u: nat)
    decreases u
  {
    u == 1 || (u >= 2 && u % 2 == 0 && IsPowerOfTwo(u / 2))
  }

  /** Every `Pow2(k)` is a power of two. */
  lemma {:induction false} Pow2IsPowerOfTwo(k: nat)
    ensures IsPowerOfTwo(Pow2(k))
    decreases k
  {
    if k > 0 {
      Pow2IsPowerOfTwo(k - 1);
    }
  }

  /** For a positive `u`, `u & (u - 1)` clears the lowest set bit, so it is
      zero exactly when `u` has a single bit set. */
  lemma {:induction false} AndPredecessor(u: nat)
    requires u >= 1
    ensures (BitwiseNat(AndBit, u, u - 1) == 0) <==> IsPowerOfTwo(u)
    decreases u
  {
    BitwiseDigits(AndBit, u, u - 1);
    if u % 2 == 0 {
      assert (u - 1) / 2 == u / 2 - 1;
      AndPredecessor(u / 2);
    } else if u > 1 {
      assert (u - 1) / 2 == u / 2;
      AndOrIdempotent(u / 2);
    }
  }

  /** Powers of two grow strictly. */
  lemma {:induction false} Pow2Below(k: nat, n: nat)
    requires k < n
    ensures Pow2(k) < Pow2(n)
    decreases n
  {
    if k < n - 1 {
      Pow2Below(k, n - 1);
    }
  }

  /** A number with bit `k` set is at least `2^k`. */
  lemma {:induction false} BitSetIsLarge(u: nat, k: nat)
    requires Bit(u, k)
    ensures u >= Pow2(k)
    decreases k
  {
    if k > 0 {
      BitSetIsLarge(u / 2, k - 1);
    }
  }

  /** Two numbers below `2^n` with the same low `n` bits are equal. */
  lemma {:induction false} BitsDetermine(a: nat, b: nat, n: nat)
    requires a < Pow2(n) && b < Pow2(n)
    requires forall j :: 0 <= j < n ==> Bit(a, j) == Bit(b, j)
    ensures a == b
    decreases n
  {
    if n > 0 {
      assert Bit(a, 0) == Bit(b, 0);
      forall j | 0 <= j < n - 1
        ensures Bit(a / 2, j) == Bit(b / 2, j)
      {
        assert Bit(a, j + 1) == Bit(b, j + 1);
      }
      BitsDetermine(a / 2, b / 2, n - 1);
    }
  }

  /** Subtracting `2^k` from a number with bit `k` set clears that bit and
      leaves the others alone. */
  lemma {:induction false} BitOfMinusPow2(u: nat, k: nat, j: nat)
    requires Bit(u, k) && u >= Pow2(k)
    ensures Bit(u - Pow2(k), j) == (Bit(u, j) && j != k)
    decreases k
  {
    if k == 0 {
      if j > 0 {
        assert (u - 1) / 2 == u / 2;
      }
    } else {
      var p := Pow2(k - 1);
      assert (u - Pow2(k)) / 2 == u / 2 - p && (u - Pow2(k)) % 2 == u % 2;
      if j > 0 {
        BitOfMinusPow2(u / 2, k - 1, j - 1);
      }
    }
  }
}
