/**
  The thirteen ways of exchanging two `int`s in swap_techniques.cpp, each
  as a pure function from the two inputs to the pair the function prints.

  A C++ `int` is a 32-bit two's-complement value.  Signed overflow and
  division by zero are undefined behaviour in C++, so where a technique can
  hit them the model demands their absence as a precondition; the division
  technique checks for zero divisors itself and reports an error, so that
  check is modelled as an outcome.  The `int` arithmetic and bitwise
  operators come from `CppInt`.
 */
module Swaps {
  import opened CppInt

  // ---------------------------------------------------------------------
  // The techniques
  // ---------------------------------------------------------------------

  /** The printed values of `x` and `y` after a technique ran. */
  datatype Pair = Pair(x: Int32, y: Int32)

  /** What the exchange should produce: `std::swap`. */
  function StdSwap(x: Int32, y: Int32): (r: Pair)
    ensures r.x == y && r.y == x
  {
    Pair(y, x)
  }

  /** Swapping twice gives back the original pair. */
  lemma StdSwapTwice(x: Int32, y: Int32)
    ensures StdSwap(StdSwap(x, y).x, StdSwap(x, y).y) == Pair(x, y)
  {
  }

  /** `std::exchange(obj, v)`: stores `v` into `obj` and returns the value
      `obj` held before, paired here with the new contents of `obj`. */
  function Exchange(obj: Int32, v: Int32): (r: (Int32, Int32))
    ensures r.0 == obj && r.1 == v
  {
    (obj, v)
  }

  /** x ^= y; y ^= x; x ^= y. */
  function SwapWithXor(x: Int32, y: Int32): (r: Pair)
    ensures r == StdSwap(x, y)
  {
    var x1 := Bitwise(XorBit, x, y);
    var y1 := Bitwise(XorBit, y, x1);
    var x2 := Bitwise(XorBit, x1, y1);
    XorSwapCorrect(x, y);
    Pair(x2, y1)
  }

  lemma XorSwapCorrect(x: Int32, y: Int32)
    ensures var x1 := Bitwise(XorBit, x, y);
            var y1 := Bitwise(XorBit, y, x1);
            y1 == x && Bitwise(XorBit, x1, y1) == y
  {
    var ux, uy := Unsigned(x), Unsigned(y);
    var x1 := Bitwise(XorBit, x, y);
    var y1 := Bitwise(XorBit, y, x1);
    assert Unsigned(y1) == ux by {
      XorSymmetric(uy, Unsigned(x1));
      XorCancels(ux, uy);
    }
    SignedUnsigned(y1);
    SignedUnsigned(x);
    var x2 := Bitwise(XorBit, x1, y1);
    assert Unsigned(x2) == uy by {
      XorSymmetric(ux, uy);
      XorCancels(uy, ux);
    }
    SignedUnsigned(x2);
    SignedUnsigned(y);
  }

  /** temp = x; x = y; y = temp. */
  function SwapWithThirdVariable(x: Int32, y: Int32): (r: Pair)
    ensures r == StdSwap(x, y)
  {
    var temp := x;
    var x1 := y;
    var y1 := temp;
    Pair(x1, y1)
  }

  /** x = x + y; y = x - y; x = x - y.  Only the first sum can overflow. */
  function SwapWithAddition(x: Int32, y: Int32): (r: Pair)
    requires InRange(x as int + y as int)
    ensures r == StdSwap(x, y)
  {
    var x1 := (x as int + y as int) as Int32;
    var y1 := (x1 as int - y as int) as Int32;
    var x2 := (x1 as int - y1 as int) as Int32;
    Pair(x2, y1)
  }

  /** x = x * y; y = x / y; x = x / y.  The product must not overflow and
      neither divisor (`y`, then the original `x`) may be zero. */
  function SwapWithMultiplication(x: Int32, y: Int32): (r: Pair)
    requires x != 0 && y != 0
    requires InRange(x as int * y as int)
    ensures r == StdSwap(x, y)
  {
    var x1 := x as int * y as int;
    ExactQuotient(x as int, y as int);
    var y1 := Quot(x1, y as int);
    assert x1 == y as int * y1;
    ExactQuotient(y as int, y1);
    var x2 := Quot(x1, y1);
    Pair(x2 as Int32, y1 as Int32)
  }

  /** x = x - y; y = x + y; x = y - x.  Only the first difference can overflow. */
  function SwapWithSubtraction(x: Int32, y: Int32): (r: Pair)
    requires InRange(x as int - y as int)
    ensures r == StdSwap(x, y)
  {
    var x1 := (x as int - y as int) as Int32;
    var y1 := (x1 as int + y as int) as Int32;
    var x2 := (y1 as int - x1 as int) as Int32;
    Pair(x2, y1)
  }

  /** The division technique either prints a pair or reports an error. */
  datatype DivisionOutcome = Done(result: Pair) | DivisionByZero

  /** Guard y == 0 || x == 0; x = x / y; y = x * y; guard x == 0; x = y / x.
      The quotient is zero, and the second guard fires, exactly when |x| < |y|.
      The new `x` is always the old `y`; the new `y` is the old `x` only when
      the first division was exact.  The one quotient that overflows,
      INT_MIN / -1, is excluded. */
  function SwapWithDivision(x: Int32, y: Int32): (r: DivisionOutcome)
    requires !(x as int == MinInt32 && y == -1)
    ensures r.DivisionByZero? <==> (x == 0 || y == 0 || Abs(x as int) < Abs(y as int))
    ensures r.Done? ==> r.result.x == y
    ensures r.Done? ==> (r.result.y == x <==> Abs(x as int) % Abs(y as int) == 0)
  {
    if y == 0 || x == 0 then DivisionByZero
    else
      var q := Quot(x as int, y as int);
      var y1 := q * y as int;
      if q == 0 then DivisionByZero
      else
        DivisionSteps(x as int, y as int);
        Done(Pair(Quot(y1, q) as Int32, y1 as Int32))
  }

  /** The arithmetic behind the division technique: the quotient vanishes
      exactly when the divisor is larger in magnitude, multiplying it back
      cannot overflow, and dividing that product by the quotient recovers
      the divisor. */
  lemma DivisionSteps(a: int, b: int)
    requires a != 0 && b != 0 && InRange(a) && InRange(b)
    ensures Quot(a, b) == 0 <==> Abs(a) < Abs(b)
    ensures InRange(Quot(a, b) * b)
    ensures Quot(a, b) * b == a <==> Abs(a) % Abs(b) == 0
    ensures Quot(a, b) != 0 ==> Quot(Quot(a, b) * b, Quot(a, b)) == b
  {
    QuotientTimesDivisor(a, b);
    var q := Quot(a, b);
    if q != 0 {
      assert q * b == b * q;
      ExactQuotient(b, q);
    }
  }

  /** Prints x & y for both: not an exchange unless the two were equal. */
  function SwapWithBitwiseAnd(x: Int32, y: Int32): (r: Pair)
    ensures r.x == r.y
    ensures r == StdSwap(x, y) <==> x == y
  {
    var both := Bitwise(AndBit, x, y);
    AndOrSelf(x);
    Pair(both, both)
  }

  /** Prints x | y for both: not an exchange unless the two were equal. */
  function SwapWithBitwiseOr(x: Int32, y: Int32): (r: Pair)
    ensures r.x == r.y
    ensures r == StdSwap(x, y) <==> x == y
  {
    var either := Bitwise(OrBit, x, y);
    AndOrSelf(x);
    Pair(either, either)
  }

  /** std::tie(x, y) = std::make_tuple(y, x). */
  function SwapWithTuple(x: Int32, y: Int32): (r: Pair)
    ensures r == StdSwap(x, y)
  {
    var (tx, ty) := (y, x);
    Pair(tx, ty)
  }

  /** px = &x, py = &y; temp = *px; *px = *py; *py = temp.  The two
      variables are the two cells of a small memory. */
  function SwapWithPointers(x: Int32, y: Int32): (r: Pair)
    ensures r == StdSwap(x, y)
  {
    var memory := [x, y];
    var px, py := 0, 1;
    var temp := memory[px];
    var memory1 := memory[px := memory[py]];
    var memory2 := memory1[py := temp];
    Pair(memory2[0], memory2[1])
  }

  /** arr = {x, y}; temp = arr[0]; arr[0] = arr[1]; arr[1] = temp. */
  function SwapWithArray(x: Int32, y: Int32): (r: Pair)
    ensures r == StdSwap(x, y)
  {
    var arr := [x, y];
    var temp := arr[0];
    var arr1 := arr[0 := arr[1]];
    var arr2 := arr1[1 := temp];
    Pair(arr2[0], arr2[1])
  }

  /** x = std::exchange(y, x). */
  function SwapWithExchange(x: Int32, y: Int32): (r: Pair)
    ensures r == StdSwap(x, y)
  {
    var (previous, y1) := Exchange(y, x);
    Pair(previous, y1)
  }

  /** 10 & 20 is 0 and 10 | 20 is 30: the two have no bit in common. */
  lemma TenTwentyBits()
    ensures Bitwise(AndBit, 10, 20) == 0
    ensures Bitwise(OrBit, 10, 20) == 30
  {
    assert Unsigned(10) == 10 && Unsigned(20) == 20;
    assert BitwiseNat(AndBit, 0, 1) == 0;
    assert BitwiseNat(AndBit, 1, 2) == 0;
    assert BitwiseNat(AndBit, 2, 5) == 0;
    assert BitwiseNat(AndBit, 5, 10) == 0;
    assert BitwiseNat(AndBit, 10, 20) == 0;
    assert BitwiseNat(OrBit, 0, 1) == 1;
    assert BitwiseNat(OrBit, 1, 2) == 3;
    assert BitwiseNat(OrBit, 2, 5) == 7;
    assert BitwiseNat(OrBit, 5, 10) == 15;
    assert BitwiseNat(OrBit, 10, 20) == 30;
    SignedUnsigned(Bitwise(AndBit, 10, 20));
    SignedUnsigned(Bitwise(OrBit, 10, 20));
  }

  /** What `main` prints for a = 10, b = 20: every correct technique gives
      (20, 10).  These techniques only move values around. */
  lemma MainExampleMoves()
    ensures SwapWithThirdVariable(10, 20) == Pair(20, 10)
    ensures SwapWithTuple(10, 20) == Pair(20, 10)
    ensures SwapWithPointers(10, 20) == Pair(20, 10)
    ensures SwapWithArray(10, 20) == Pair(20, 10)
    ensures SwapWithExchange(10, 20) == Pair(20, 10)
  {
  }

  /** Addition and subtraction exchange 10 and 20. */
  lemma MainExampleSums()
    ensures SwapWithAddition(10, 20) == Pair(20, 10)
    ensures SwapWithSubtraction(10, 20) == Pair(20, 10)
  {
  }

  /** XOR exchanges 10 and 20. */
  lemma MainExampleXor()
    ensures SwapWithXor(10, 20) == Pair(20, 10)
  {
  }

  /** Multiplication exchanges 10 and 20; the division technique stops at
      its second guard because 10 / 20 truncates to 0. */
  lemma MainExampleArithmetic()
    ensures SwapWithMultiplication(10, 20) == Pair(20, 10)
    ensures SwapWithDivision(10, 20) == DivisionByZero
  {
  }

  /** AND prints 0 twice and OR prints 30 twice. */
  lemma MainExampleBitwise()
    ensures SwapWithBitwiseAnd(10, 20) == Pair(0, 0)
    ensures SwapWithBitwiseOr(10, 20) == Pair(30, 30)
  {
    TenTwentyBits();
  }
}
