/**
 * fold and the reductions built on it in numerical_calculus/include/nc_cpp.hpp:
 * sum_n_numbers, multiply_n_numbers, min_n_numbers and max_n_numbers. The
 * callback of fold updates its accumulator in place; here it is a function
 * from the old accumulator and the element to the new accumulator.
 */
module NcFold {

  /** The value fold leaves in its accumulator after the elements of v,
      visited first to last. */
  ghost function FoldLeft<T>(f: (T, T) -> T, init: T, v: seq<T>): T
    decreases |v|
  {
    if |v| == 0 then init else f(FoldLeft(f, init, v[..|v| - 1]), v[|v| - 1])
  }

  /** fold: starts from the initial value and applies f to the accumulator
      and each element in turn. */
  method Fold<T>(f: (T, T) -> T, init: T, v: seq<T>) returns (r: T)
    ensures r == FoldLeft(f, init, v)
  {
    r := init;
    for i := 0 to |v|
      invariant r == FoldLeft(f, init, v[..i])
    {
      assert v[..i + 1][..i] == v[..i];
      r := f(r, v[i]);
    }
    assert v[..|v|] == v;
  }

  /** The sum of a sequence, element by element from the front. */
  function Sum(v: seq<int>): int
  {
    if |v| == 0 then 0 else v[0] + Sum(v[1..])
  }

  /** The product of a sequence, element by element from the front. */
  function Product(v: seq<int>): int
  {
    if |v| == 0 then 1 else v[0] * Product(v[1..])
  }

  lemma {:induction false} SumAppend(v: seq<int>, x: int)
    ensures Sum(v + [x]) == Sum(v) + x
    decreases |v|
  {
    if |v| > 0 {
      assert (v + [x])[1..] == v[1..] + [x];
      SumAppend(v[1..], x);
    }
  }

  lemma {:induction false} ProductAppend(v: seq<int>, x: int)
    ensures Product(v + [x]) == Product(v) * x
    decreases |v|
  {
    if |v| > 0 {
      assert (v + [x])[1..] == v[1..] + [x];
      ProductAppend(v[1..], x);
      assert v[0] * (Product(v[1..]) * x) == (v[0] * Product(v[1..])) * x;
    }
  }

  /** Folding with + from 0 computes the sum. */
  lemma {:induction false} FoldAddIsSum(v: seq<int>)
    ensures FoldLeft((r: int, x: int) => r + x, 0, v) == Sum(v)
    decreases |v|
  {
    if |v| > 0 {
      var init := v[..|v| - 1];
      FoldAddIsSum(init);
      assert init + [v[|v| - 1]] == v;
      SumAppend(init, v[|v| - 1]);
    }
  }

  /** Folding with * from 1 computes the product. */
  lemma {:induction false} FoldMultiplyIsProduct(v: seq<int>)
    ensures FoldLeft((r: int, x: int) => r * x, 1, v) == Product(v)
    decreases |v|
  {
    if |v| > 0 {
      var init := v[..|v| - 1];
      FoldMultiplyIsProduct(init);
      assert init + [v[|v| - 1]] == v;
      ProductAppend(init, v[|v| - 1]);
    }
  }

  /** sum_n_numbers: fold with += from 0. */
  method SumNumbers(v: seq<int>) returns (r: int)
    ensures r == Sum(v)
  {
    r := Fold((r: int, x: int) => r + x, 0, v);
    FoldAddIsSum(v);
  }

  /** multiply_n_numbers: fold with *= from 1. */
  method MultiplyNumbers(v: seq<int>) returns (r: int)
    ensures r == Product(v)
  {
    r := Fold((r: int, x: int) => r * x, 1, v);
    FoldMultiplyIsProduct(v);
  }

  function Min(a: int, b: int): int { if b < a then b else a }

  function Max(a: int, b: int): int { if a < b then b else a }

  /** Folding with std::min keeps the least of the initial value and the
      elements, and that least value is one of them. */
  lemma {:induction false} FoldMinIsLeast(init: int, v: seq<int>)
    ensures var r := FoldLeft(Min, init, v);
      (r == init || r in v) && r <= init && forall x :: x in v ==> r <= x
    decreases |v|
  {
    if |v| > 0 {
      var prefix := v[..|v| - 1];
      FoldMinIsLeast(init, prefix);
      assert v == prefix + [v[|v| - 1]];
    }
  }

  /** Folding with std::max keeps the greatest of the initial value and the
      elements, and that greatest value is one of them. */
  lemma {:induction false} FoldMaxIsGreatest(init: int, v: seq<int>)
    ensures var r := FoldLeft(Max, init, v);
      (r == init || r in v) && r >= init && forall x :: x in v ==> r >= x
    decreases |v|
  {
    if |v| > 0 {
      var prefix := v[..|v| - 1];
      FoldMaxIsGreatest(init, prefix);
      assert v == prefix + [v[|v| - 1]];
    }
  }

  /** min_n_numbers: asserts a non-empty vector, then folds std::min from
      its first element. */
  method MinNumbers(v: seq<int>) returns (r: int)
    requires |v| > 0
    ensures r in v
    ensures forall x :: x in v ==> r <= x
  {
    r := Fold(Min, v[0], v);
    FoldMinIsLeast(v[0], v);
  }

  /** max_n_numbers: asserts a non-empty vector, then folds std::max from
      its first element. */
  method MaxNumbers(v: seq<int>) returns (r: int)
    requires |v| > 0
    ensures r in v
    ensures forall x :: x in v ==> r >= x
  {
    r := Fold(Max, v[0], v);
    FoldMaxIsGreatest(v[0], v);
  }
}
