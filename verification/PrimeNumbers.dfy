/** Divisors, prime numbers and square roots. */
module PrimeNumbers {
  predicate Divides(d: nat, n: nat)
    requires d > 0
  {
    n % d == 0
  }

  ghost predicate IsPrimeNumber(n: nat) {
    n >= 2 && forall d | 2 <= d < n :: !Divides(d, n)
  }

  /** The integer square root, which is what the truncated double square root of a 32-bit number is. */
  function Sqrt(n: nat): (r: nat)
    ensures r * r <= n < (r + 1) * (r + 1)
  {
    if n == 0 then 0
    else
      var s := Sqrt(n - 1);
      if (s + 1) * (s + 1) <= n then s + 1 else s
  }

  /** A proper divisor of an odd number can be chosen odd and at most the square root. */
  lemma SmallDivisor(n: nat, d: nat) returns (e: nat)
    requires n % 2 == 1 && 2 <= d < n && Divides(d, n)
    ensures 3 <= e <= Sqrt(n) && e % 2 == 1 && Divides(e, n)
  {
    var q := Cofactor(n, d);
    e := if d <= q then d else q;
    AtMostRoot(n, e, if d <= q then q else d);
    if e % 2 == 0 {
      DivisorOfDivisor(2, e, n);
    }
  }

  lemma Cofactor(n: nat, d: nat) returns (q: nat)
    requires 2 <= d < n && Divides(d, n)
    ensures n == d * q && 2 <= q && Divides(q, n)
  {
    q := n / d;
    assert n == d * q;
    if q <= 1 {
      MulMonotone(d, d, q, 1);
    }
    QuotientExact(n, q, d);
  }

  lemma AtMostRoot(n: nat, e: nat, f: nat)
    requires n == e * f && e <= f
    ensures e <= Sqrt(n)
  {
    var r := Sqrt(n);
    if e > r {
      MulMonotone(r + 1, e, r + 1, f);
    }
  }

  lemma QuotientExact(n: nat, q: nat, d: nat)
    requires q > 0 && n == d * q
    ensures n / q == d && n % q == 0
  {
    var x := n / q;
    assert q * (d - x) == n % q;
    FarFromZero(q, d - x);
  }

  lemma FarFromZero(q: int, k: int)
    requires q >= 0
    ensures k >= 1 ==> q * k >= q
    ensures k <= -1 ==> q * k <= -q
  {
    assert q * k == q + q * (k - 1) == q * (k + 1) - q;
  }

  lemma MulMonotone(a: nat, b: nat, c: nat, d: nat)
    requires a <= b && c <= d
    ensures a * c <= b * d
  {
  }

  lemma DivisorOfDivisor(p: nat, e: nat, n: nat)
    requires p > 0 && e > 0 && Divides(p, e) && Divides(e, n)
    ensures Divides(p, n)
  {
    var k, q := e / p, n / e;
    assert n == p * (k * q) by {
      assert n == e * q && e == p * k;
    }
    QuotientExact(n, p, k * q);
  }

  lemma EvenPrime(n: nat)
    requires n % 2 == 0
    ensures IsPrimeNumber(n) <==> n == 2
  {
    assert n > 2 ==> Divides(2, n);
  }

  lemma NoSmallDivisor(n: nat)
    requires n % 2 == 1 && forall d | 3 <= d <= Sqrt(n) && d % 2 == 1 :: !Divides(d, n)
    ensures n == 1 || IsPrimeNumber(n)
  {
    forall d | 2 <= d < n ensures !Divides(d, n) {
      if Divides(d, n) {
        var e := SmallDivisor(n, d);
      }
    }
  }

  lemma ProperDivisor(n: nat, d: nat)
    requires 3 <= d <= Sqrt(n) && Divides(d, n)
    ensures !IsPrimeNumber(n) && n != 1
  {
  }
}
