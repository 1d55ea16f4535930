/**
 * The integer helpers at the top of numerical_calculus/include/nc_cpp.hpp:
 * abs, mod, is_multiple_of, is_even and is_odd, over unbounded int.
 */
module NcScalar {

  /** abs: x when x is not negative, -x otherwise. */
  function Abs(x: int): (r: int)
    ensures r >= 0
    ensures r == x || r == -x
  {
    if x < 0 then -x else x
  }

  /** mod: asserts b != 0, then |a| - (|a| / |b|) * |b|. Both operands of
      the division are non-negative, where C++'s truncating division and
      Dafny's Euclidean one agree, so the result is the remainder of |a|
      divided by |b|: the sign of neither operand matters. */
  function Mod(a: int, b: int): (r: int)
    requires b != 0
    ensures 0 <= r < Abs(b)
    ensures r == Abs(a) % Abs(b)
  {
    var a', b' := Abs(a), Abs(b);
    assert a' == (a' / b') * b' + a' % b';
    a' - (a' / b') * b'
  }

  /** is_multiple_of: mod(a, b) == 0, which holds exactly when b divides a. */
  function IsMultipleOf(a: int, b: int): (r: bool)
    requires b != 0
    ensures r <==> a % b == 0
  {
    MultipleIgnoresSigns(a, b);
    Mod(a, b) == 0
  }

  /** b divides a exactly when |b| divides |a|. */
  lemma MultipleIgnoresSigns(a: int, b: int)
    requires b != 0
    ensures a % b == 0 <==> Abs(a) % Abs(b) == 0
  {
    if a % b == 0 {
      MultipleOfAbs(a, b, a / b);
    }
    if Abs(a) % Abs(b) == 0 {
      var k := Abs(a) / Abs(b);
      assert Abs(a) == k * Abs(b);
      if a < 0 {
        NegatedMultiple(Abs(a), Abs(b), k);
      }
      MultipleOfAbs(Abs(a), Abs(b), k);
      AbsMultiple(a, b, k);
    }
  }

  /** a == k * b makes |a| a multiple of |b|. */
  lemma MultipleOfAbs(a: int, b: int, k: int)
    requires b != 0 && a == k * b
    ensures Abs(a) % Abs(b) == 0
  {
    NegatedMultiple(a, b, k);
    if a < 0 && b < 0 {
      MultipleHasNoRemainder(-a, -b, k);
    } else if a < 0 {
      MultipleHasNoRemainder(-a, b, -k);
    } else if b < 0 {
      MultipleHasNoRemainder(a, -b, -k);
    } else {
      MultipleHasNoRemainder(a, b, k);
    }
  }

  /** |a| == k * |b| makes a a multiple of b. */
  lemma AbsMultiple(a: int, b: int, k: int)
    requires b != 0 && Abs(a) == k * Abs(b)
    ensures a % b == 0
  {
    NegatedMultiple(Abs(a), Abs(b), k);
    if (a < 0) == (b < 0) {
      if a < 0 {
        assert a == k * b;
      }
      MultipleHasNoRemainder(a, b, k);
    } else {
      if a < 0 {
        assert a == (-k) * b;
      } else {
        assert a == (-k) * b;
      }
      MultipleHasNoRemainder(a, b, -k);
    }
  }

  /** Multiples survive a change of sign of either side. */
  lemma NegatedMultiple(a: int, b: int, k: int)
    requires a == k * b
    ensures -a == (-k) * b
    ensures a == (-k) * (-b)
    ensures -a == k * (-b)
  {
  }

  /** A multiple of b leaves remainder zero. */
  lemma MultipleHasNoRemainder(a: int, b: int, k: int)
    requires b != 0 && a == k * b
    ensures a % b == 0
  {
    var q, r := a / b, a % b;
    assert a == q * b + r && 0 <= r < Abs(b);
    assert r == (k - q) * b;
    AbsOfProduct(k - q, b);
    ProductAtLeast(Abs(k - q), Abs(b));
  }

  lemma AbsOfProduct(x: int, y: int)
    ensures Abs(x * y) == Abs(x) * Abs(y)
  {
  }

  lemma ProductAtLeast(x: nat, y: nat)
    ensures x >= 1 ==> x * y >= y
  {
    assert x * y == (x - 1) * y + y;
  }

  /** is_even: mod(x, 2) == 0. */
  function IsEven(x: int): (r: bool)
    ensures r <==> x % 2 == 0
  {
    Mod(x, 2) == 0
  }

  /** is_odd: mod(x, 2) != 0. */
  function IsOdd(x: int): (r: bool)
    ensures r <==> x % 2 == 1
  {
    Mod(x, 2) != 0
  }

  /** is_odd is always the negation of is_even, and parity alternates. */
  lemma OddIsNotEven(x: int)
    ensures IsOdd(x) <==> !IsEven(x)
    ensures IsEven(x) <==> IsOdd(x + 1)
  {
  }
}
