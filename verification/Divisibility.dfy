/** Divisors and prime numbers. */
module Divisibility {
  import opened Sums

  ghost predicate Divides(d: nat, n: nat)
    requires d > 0
  {
    n % d == 0
  }

  ghost predicate NoDivisorBelow(n: nat, bound: nat) {
    forall d {:trigger Divides(d, n)} | 2 <= d < bound :: !Divides(d, n)
  }

  ghost predicate IsPrime(n: nat) {
    n >= 2 && NoDivisorBelow(n, n)
  }

  ghost predicate NoPrimeIn(low: nat, high: nat) {
    forall m {:trigger IsPrime(m)} | low <= m < high :: !IsPrime(m)
  }

  // ----------------------------------------------------------------- divisibility

  lemma DividesTransitive(a: nat, b: nat, c: nat)
    requires 0 < a && 0 < b && Divides(a, b) && Divides(b, c)
    ensures Divides(a, c)
  {
    var x, y := b / a, c / b;
    assert b == a * x && c == b * y;
    assert c == a * (x * y);
    MultipleIsDivided(a, x * y);
  }

  lemma MultipleIsDivided(a: nat, x: nat)
    requires 0 < a
    ensures (a * x) % a == 0 && (a * x) / a == x
  {
    ModUnique(a * x, a, x, 0);
  }

  lemma MultiplesApart(a: nat, x: nat, y: nat)
    ensures x < y ==> a * x + a <= a * y
    ensures x <= y ==> a * x <= a * y
  {
    if x < y {
      MultiplesOrdered(a, x + 1, y);
      assert a * (x + 1) == a * x + a;
    }
  }

  lemma ModUnique(n: nat, a: nat, q: nat, r: nat)
    requires n == a * q + r && r < a
    ensures n / a == q && n % a == r
  {
    MultiplesApart(a, n / a, q);
    MultiplesApart(a, q, n / a);
  }

  /** The cofactor of a divisor divides as well. */
  lemma Cofactor(d: nat, n: nat)
    requires 0 < d && Divides(d, n) && 0 < n
    ensures 0 < n / d && n == d * (n / d) && Divides(n / d, n)
  {
    var c := n / d;
    assert n == d * c;
    assert c != 0;
    assert n == c * d;
    MultipleIsDivided(c, d);
  }

  /** A divisor that is not below i has a cofactor below i, if n / i is. */
  lemma CofactorBelow(n: nat, i: nat, d: nat)
    requires 0 < i <= d < n && Divides(d, n) && n / i < i
    ensures 2 <= n / d < i && Divides(n / d, n)
  {
    Cofactor(d, n);
    MultiplesApart(n / d, i, d);
    MultiplesApart(i, n / i, n / d);
    MultiplesApart(i, n / d, n / i);
    assert n / d != 1;
    assert n < i * (n / i) + i;
  }

  /** Once there is no divisor below i, and n / i is less than i, n is prime. */
  lemma NoneBelowRootIsPrime(n: nat, i: nat)
    requires n >= 2 && i >= 2 && NoDivisorBelow(n, i) && n / i < i
    ensures IsPrime(n)
  {
    forall d | 2 <= d < n ensures !Divides(d, n) {
      if Divides(d, n) && i <= d {
        CofactorBelow(n, i, d);
      }
    }
  }

  /** The test of the program: n / d rounds down, and times d it is n again. */
  lemma DivisionTest(n: nat, d: nat)
    requires 0 < d
    ensures n == (n / d) * d <==> Divides(d, n)
  {
    assert n == d * (n / d) + n % d;
  }

  // -------------------------------------------------------------- Euclid's theorem

  lemma {:induction false} SomePrimeDivides(n: nat) returns (p: nat)
    requires n >= 2
    ensures IsPrime(p) && Divides(p, n)
  {
    p := 2;
    while !Divides(p, n)
      invariant 2 <= p <= n && NoDivisorBelow(n, p)
      decreases n - p
    {
      assert Divides(n, n);
      p := p + 1;
    }
    forall d | 2 <= d < p ensures !Divides(d, p) {
      if Divides(d, p) {
        DividesTransitive(d, p, n);
      }
    }
  }

  function Factorial(n: nat): (f: nat)
    ensures f >= 1
  {
    if n == 0 then 1 else n * Factorial(n - 1)
  }

  lemma {:induction false} DividesFactorial(d: nat, n: nat)
    requires 1 <= d <= n
    ensures Divides(d, Factorial(n))
  {
    if d == n {
      MultipleIsDivided(n, Factorial(n - 1));
    } else {
      DividesFactorial(d, n - 1);
      var c := Factorial(n - 1) / d;
      assert Factorial(n - 1) == d * c;
      assert Factorial(n) == d * (n * c);
      MultipleIsDivided(d, n * c);
    }
  }

  lemma NotNext(p: nat, f: nat)
    requires p >= 2 && Divides(p, f)
    ensures !Divides(p, f + 1)
  {
    assert f == p * (f / p);
    ModUnique(f + 1, p, f / p, 1);
  }

  /** There is a prime above every number. */
  lemma PrimeAbove(n: nat) returns (p: nat)
    ensures IsPrime(p) && p > n
  {
    p := SomePrimeDivides(Factorial(n) + 1);
    if p <= n {
      DividesFactorial(p, n);
      NotNext(p, Factorial(n));
    }
  }
}
