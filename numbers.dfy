/** The integer part of the `Number` helpers: parity, divisibility,
    primality by trial division and the Fibonacci recurrence. */
module Numbers {
  import opened Errors

  const FibonacciError := "Functions.Number.fibbonacci: Number must be greater than 0"

  function Abs(x: int): nat {
    if x < 0 then -x else x
  }

  /** A product with a factor of at least 1 is at least the other factor. */
  lemma {:induction false} MulGrows(m: nat, k: nat)
    requires 1 <= k
    ensures m <= m * k
  {
    if k > 1 {
      MulGrows(m, k - 1);
      assert m * k == m * (k - 1) + m;
    }
  }

  /** Multiplying by a non-negative factor keeps the order. */
  lemma MulMonotone(x: nat, y: int, z: int)
    requires y <= z
    ensures x * y <= x * z
  {
    if y < z {
      MulGrows(x, z - y);
      assert x * z - x * y == x * (z - y);
    }
  }

  /** A non-zero multiple of `b` is at least as large as `b` in magnitude. */
  lemma MulAbs(b: int, k: int)
    requires k != 0
    ensures Abs(b) <= Abs(b * k)
  {
    MulGrows(Abs(b), Abs(k));
    assert Abs(b * k) == Abs(b) * Abs(k);
  }

  /** Euclidean division is determined by its defining equation. */
  lemma DivModUnique(a: int, b: int, q: int, r: int)
    requires b != 0 && a == b * q + r && 0 <= r < Abs(b)
    ensures a / b == q && a % b == r
  {
    var q0, r0 := a / b, a % b;
    assert b * (q - q0) == r0 - r;
    if q != q0 {
      MulAbs(b, q - q0);
    }
  }

  /** JavaScript's `%` on integer operands: the remainder of the division
      truncated toward zero, so its sign follows the dividend. Dafny's own
      `%` is Euclidean and never negative. */
  function TruncRem(a: int, b: int): (r: int)
    requires b != 0
    ensures (a - r) % b == 0
    ensures 0 <= a ==> 0 <= r < Abs(b)
    ensures a < 0 ==> 0 <= -r < Abs(b)
  {
    var m := Abs(b);
    TruncRemDivides(a, b);
    if 0 <= a then a % m else -((-a) % m)
  }

  /** What is left after the truncated remainder is a multiple of `b`. */
  lemma TruncRemDivides(a: int, b: int)
    requires b != 0
    ensures 0 <= a ==> (a - a % Abs(b)) % b == 0
    ensures a < 0 ==> (a + (-a) % Abs(b)) % b == 0
  {
    var m := Abs(b);
    if 0 <= a {
      var q := a / m;
      assert a == m * q + a % m;
      TruncRemMultiple(a - a % m, b, m, q);
    } else {
      var q := (-a) / m;
      assert -a == m * q + (-a) % m;
      assert a + (-a) % m == m * -q;
      TruncRemMultiple(a + (-a) % m, b, m, -q);
    }
  }

  /** A multiple of `Abs(b)` is a multiple of `b`. */
  lemma TruncRemMultiple(x: int, b: int, m: int, q: int)
    requires b != 0 && m == Abs(b) && x == m * q
    ensures x % b == 0
  {
    if b < 0 {
      assert x == b * -q;
      DivModUnique(x, b, -q, 0);
    } else {
      DivModUnique(x, b, q, 0);
    }
  }

  /** `Number.isEven`: `number % 2 == 0`. */
  predicate IsEven(number: int) {
    TruncRem(number, 2) == 0
  }

  /** `Number.isOdd`: `number % 2 == 1`, which a negative dividend never meets. */
  predicate IsOdd(number: int) {
    TruncRem(number, 2) == 1
  }

  /** `Number.isDivisibleBy`: `number % divisor == 0`. A zero divisor makes
      the remainder NaN, which is not equal to 0, so the answer is false. */
  predicate IsDivisibleBy(number: int, divisor: int) {
    divisor != 0 && TruncRem(number, divisor) == 0
  }

  /** Parity under the truncated remainder, against Euclidean parity:
      evenness agrees, oddness holds only for positive odd numbers, and a
      negative odd number is neither even nor odd. */
  lemma {:induction false} ParityTruncated(n: int)
    ensures IsEven(n) <==> n % 2 == 0
    ensures IsOdd(n) <==> 0 < n && n % 2 == 1
    ensures !IsEven(n) && !IsOdd(n) <==> n < 0 && n % 2 == 1
  {
    if n < 0 {
      assert n % 2 == 0 <==> (-n) % 2 == 0 by {
        assert n == -((-n) / 2) * 2 - (-n) % 2;
      }
    }
  }

  /** Divisibility under the truncated remainder is ordinary divisibility,
      and a zero divisor answers false rather than failing. */
  lemma DivisibleByIff(n: int, d: int)
    ensures IsDivisibleBy(n, d) <==> d != 0 && n % d == 0
    ensures !IsDivisibleBy(n, 0)
  {
    if d != 0 {
      var r := TruncRem(n, d);
      if n % d == 0 {
        var q := n / d;
        assert n == d * q;
        if r != 0 {
          // n - r is a multiple of d too, so r would be a non-zero multiple of d
          var k := (n - r) / d;
          assert n - r == d * k;
          assert r == d * (q - k);
          MulAbs(d, q - k);
        }
      }
    }
  }

  /** `d` is a divisor of `n`. */
  predicate Divides(d: int, n: int) {
    d != 0 && n % d == 0
  }

  /** What `Number.isPrime` decides: `n` is at least 2 and nothing in
      [2, n) divides it. */
  predicate Prime(n: int) {
    2 <= n && forall d :: 2 <= d < n ==> !Divides(d, n)
  }

  /** `Number.isPrime`: trial division by every integer in [2, number),
      returning as soon as one divides. */
  method IsPrime(number: int) returns (prime: bool)
    ensures prime <==> Prime(number)
  {
    if number < 2 {
      return false;
    }
    var i := 2;
    while i < number
      invariant 2 <= i <= number
      invariant forall d :: 2 <= d < i ==> !Divides(d, number)
    {
      if TruncRem(number, i) == 0 {
        assert Divides(i, number);
        return false;
      }
      i := i + 1;
    }
    return true;
  }

  /** Trial division could stop at the square root: a number with no divisor
      d in [2, n) where d * d <= n has no divisor in [2, n) at all. */
  lemma {:induction false} TrialDivisionToSquareRoot(n: int)
    requires 2 <= n
    requires forall d :: 2 <= d < n && d * d <= n ==> !Divides(d, n)
    ensures Prime(n)
  {
    forall d | 2 <= d < n
      ensures !Divides(d, n)
    {
      if Divides(d, n) && d * d > n {
        var q := n / d;
        assert n == d * q;
        assert 2 <= q by {
          if q <= 0 { MulMonotone(d, q, 0); }
        }
        assert q < d by {
          if q >= d { MulMonotone(d, d, q); }
        }
        assert q * q <= n by {
          MulMonotone(q, q, d);
        }
        DivModUnique(n, q, d, 0);
        assert Divides(q, n);
      }
    }
  }

  /** Known primes and non-primes. */
  lemma PrimeExamples()
    ensures !Prime(1) && Prime(2) && Prime(3) && Prime(17) && !Prime(18)
  {
    assert Divides(2, 18);
    forall d | 2 <= d < 17 && d * d <= 17
      ensures !Divides(d, 17)
    {
      assert d <= 4 by {
        if d > 4 { MulMonotone(d, 5, d); }
      }
    }
    TrialDivisionToSquareRoot(17);
  }

  /** `Number.fibbonacci`: 1, 1, then the sum of the two previous values;
      arguments below 1 throw. */
  function Fibonacci(n: int): (r: Result<nat>)
    decreases n
    ensures r.Err? <==> n < 1
    ensures r.Err? ==> r.message == FibonacciError
    ensures r.Ok? ==> 1 <= r.value
  {
    if n < 1 then Err(FibonacciError)
    else if n == 1 then Ok(1)
    else if n == 2 then Ok(1)
    else Ok(Fibonacci(n - 1).value + Fibonacci(n - 2).value)
  }

  /** An independent, linear definition: the pair of consecutive Fibonacci
      numbers reached after `k` steps from (1, 1). */
  function FibonacciPair(k: nat): (nat, nat) {
    if k == 0 then (1, 1)
    else
      var p := FibonacciPair(k - 1);
      (p.1, p.0 + p.1)
  }

  /** The recursive definition agrees with the linear one. */
  lemma {:induction false} FibonacciByPairs(n: int)
    requires 1 <= n
    ensures Fibonacci(n) == Ok(FibonacciPair(n - 1).0)
    ensures Fibonacci(n + 1) == Ok(FibonacciPair(n - 1).1)
  {
    if n > 1 {
      FibonacciByPairs(n - 1);
    }
  }

  /** The sequence never decreases. */
  lemma {:induction false} FibonacciMonotone(m: int, n: int)
    requires 1 <= m <= n
    ensures Fibonacci(m).value <= Fibonacci(n).value
    decreases n
  {
    if m < n {
      FibonacciMonotone(m, n - 1);
    }
  }
}
