/** `Math.factorial`: a falling product of `times` factors. */
module Maths {
  import opened Errors

  const FactorialError := "Functions.Math.factorial: number is less than 0"

  /** n * (n - 1) * ... * (n - t + 1): `t` factors counting down from `n`,
      and 1 when `t` is not positive. */
  function FallingProduct(n: int, t: int): int
    decreases t
  {
    if t <= 0 then 1 else n * FallingProduct(n - 1, t - 1)
  }

  /** The ordinary factorial. */
  function Fact(n: nat): (r: nat)
    ensures 1 <= r
  {
    if n == 0 then 1 else n * Fact(n - 1)
  }

  /** `Math.factorial(number, times = 1)`: throws for a negative number,
      gives 1 for 0, and otherwise multiplies `times` factors counting down
      from `number`. The loop goes on past 1 when `times` exceeds `number`. */
  method Factorial(number: int, times: int := 1) returns (r: Result<int>)
    ensures r.Err? <==> number < 0
    ensures r.Err? ==> r.message == FactorialError
    ensures number == 0 ==> r == Ok(1)
    ensures 0 < number ==> r == Ok(FallingProduct(number, times))
  {
    if number < 0 {
      return Err(FactorialError);
    }
    if number == 0 {
      return Ok(1);
    }
    var product := 1;
    var n := number;
    var i := 0;
    while i < times
      invariant 0 <= i && (0 <= times ==> i <= times)
      invariant n == number - i
      invariant product * FallingProduct(n, times - i) == FallingProduct(number, times)
    {
      FallingProductStep(product, n, times - i);
      product := product * n;
      n := n - 1;
      i := i + 1;
    }
    return Ok(product);
  }

  /** Taking one factor out of the falling product, with the running
      product in front. */
  lemma FallingProductStep(p: int, n: int, t: int)
    requires 0 < t
    ensures p * FallingProduct(n, t) == (p * n) * FallingProduct(n - 1, t - 1)
  {
    MulAssociates(p, n, FallingProduct(n - 1, t - 1));
  }

  /** With as many factors as the number itself, the falling product is the
      factorial. */
  lemma {:induction false} FallingProductIsFactorial(n: nat)
    ensures FallingProduct(n, n) == Fact(n)
  {
    if n > 0 {
      FallingProductIsFactorial(n - 1);
    }
  }

  /** The falling product with `t` factors is n! / (n - t)!. */
  lemma {:induction false} FallingProductQuotient(n: nat, t: nat)
    requires t <= n
    ensures FallingProduct(n, t) * Fact(n - t) == Fact(n)
    decreases t
  {
    if t > 0 {
      FallingProductQuotient(n - 1, t - 1);
      var a, b := FallingProduct(n - 1, t - 1), Fact(n - t);
      assert a * b == Fact(n - 1);
      assert FallingProduct(n, t) == n * a;
      MulAssociates(n, a, b);
      assert Fact(n) == n * Fact(n - 1);
    }
  }

  lemma MulAssociates(x: int, y: int, z: int)
    ensures (x * y) * z == x * (y * z)
  {
  }

  /** More factors than the number reach the factor 0, so the product is 0;
      only `number == 0` itself is answered with 1. */
  lemma {:induction false} FallingProductPastZero(n: nat, t: int)
    requires n < t
    ensures FallingProduct(n, t) == 0
    decreases n
  {
    if n > 0 {
      FallingProductPastZero(n - 1, t - 1);
    }
  }

  /** With the default of one factor, the result is the number itself. */
  lemma FallingProductOneFactor(n: int)
    ensures FallingProduct(n, 1) == n
  {
  }
}
