/** The least prime number that is not less than a given number, by a sieve that skips the
    multiples of 2, 3, 5 and 7. */
module Primes {
  import opened Divisibility
  import opened LargestPrime
  import opened Sums

  datatype Result = Ok(value: nat) | Overflow

  /** The primes up to 211, and zero, in order. */
  function SmallPrime(a: nat): nat {
    match a
    case 0 => 0 case 1 => 2 case 2 => 3 case 3 => 5 case 4 => 7 case 5 => 11
    case 6 => 13 case 7 => 17 case 8 => 19 case 9 => 23 case 10 => 29 case 11 => 31
    case 12 => 37 case 13 => 41 case 14 => 43 case 15 => 47 case 16 => 53 case 17 => 59
    case 18 => 61 case 19 => 67 case 20 => 71 case 21 => 73 case 22 => 79 case 23 => 83
    case 24 => 89 case 25 => 97 case 26 => 101 case 27 => 103 case 28 => 107 case 29 => 109
    case 30 => 113 case 31 => 127 case 32 => 131 case 33 => 137 case 34 => 139 case 35 => 149
    case 36 => 151 case 37 => 157 case 38 => 163 case 39 => 167 case 40 => 173 case 41 => 179
    case 42 => 181 case 43 => 191 case 44 => 193 case 45 => 197 case 46 => 199 case 47 => 211
    case _ => 0
  }

  /** The residues modulo 210 that 2, 3, 5 and 7 do not divide, in order. */
  function Index(a: nat): nat {
    match a
    case 0 => 1 case 1 => 11 case 2 => 13 case 3 => 17 case 4 => 19 case 5 => 23
    case 6 => 29 case 7 => 31 case 8 => 37 case 9 => 41 case 10 => 43 case 11 => 47
    case 12 => 53 case 13 => 59 case 14 => 61 case 15 => 67 case 16 => 71 case 17 => 73
    case 18 => 79 case 19 => 83 case 20 => 89 case 21 => 97 case 22 => 101 case 23 => 103
    case 24 => 107 case 25 => 109 case 26 => 113 case 27 => 121 case 28 => 127 case 29 => 131
    case 30 => 137 case 31 => 139 case 32 => 143 case 33 => 149 case 34 => 151 case 35 => 157
    case 36 => 163 case 37 => 167 case 38 => 169 case 39 => 173 case 40 => 179 case 41 => 181
    case 42 => 187 case 43 => 191 case 44 => 193 case 45 => 197 case 46 => 199 case 47 => 209
    case _ => 0
  }

  /** The steps from one such residue to the next. */
  function Gap(a: nat): nat {
    match a
    case 0 => 10 case 1 => 2 case 2 => 4 case 3 => 2 case 4 => 4 case 5 => 6
    case 6 => 2 case 7 => 6 case 8 => 4 case 9 => 2 case 10 => 4 case 11 => 6
    case 12 => 6 case 13 => 2 case 14 => 6 case 15 => 4 case 16 => 2 case 17 => 6
    case 18 => 4 case 19 => 6 case 20 => 8 case 21 => 4 case 22 => 2 case 23 => 4
    case 24 => 2 case 25 => 4 case 26 => 8 case 27 => 6 case 28 => 4 case 29 => 6
    case 30 => 2 case 31 => 4 case 32 => 6 case 33 => 2 case 34 => 6 case 35 => 6
    case 36 => 4 case 37 => 2 case 38 => 4 case 39 => 6 case 40 => 2 case 41 => 6
    case 42 => 4 case 43 => 2 case 44 => 4 case 45 => 2 case 46 => 10 case 47 => 2
    case _ => 0
  }

  const L: nat := 210
  const M: nat := 48

  /** Not divisible by 2, 3, 5 or 7. */
  predicate OnWheel(n: nat) {
    n % 2 != 0 && n % 3 != 0 && n % 5 != 0 && n % 7 != 0
  }

  // ------------------------------------------------------------- small factors

  /** A proper factor among the first six primes. */
  predicate HasSmallFactor(d: nat) {
    || (d > 2 && d % 2 == 0) || (d > 3 && d % 3 == 0) || (d > 5 && d % 5 == 0)
    || (d > 7 && d % 7 == 0) || (d > 11 && d % 11 == 0) || (d > 13 && d % 13 == 0)
  }

  lemma SmallFactor(d: nat) returns (f: nat)
    requires HasSmallFactor(d)
    ensures 2 <= f < d && Divides(f, d)
  {
    f := if d > 2 && d % 2 == 0 then 2 else if d > 3 && d % 3 == 0 then 3 else if d > 5 && d % 5 == 0 then 5
         else if d > 7 && d % 7 == 0 then 7 else if d > 11 && d % 11 == 0 then 11 else 13;
  }

  lemma SmallFactorIsProper(d: nat)
    requires HasSmallFactor(d)
    ensures !IsPrime(d)
  {
    var f := SmallFactor(d);
  }

  /** Numbers below 17 * 17 without a small factor are prime. */
  lemma NoSmallFactorIsPrime(d: nat)
    requires 2 <= d < 289 && !HasSmallFactor(d)
    ensures IsPrime(d)
  {
    forall e | 2 <= e < d ensures !Divides(e, d) {
      if Divides(e, d) {
        Cofactor(e, d);
        var c := d / e;
        MultiplesApart(e, 17, c);
        MultiplesApart(17, 17, e);
        SmallerOfTwo(d, e, c);
      }
    }
  }

  /** One of two factors is below 17, and gives a small factor. */
  lemma SmallerOfTwo(d: nat, e: nat, c: nat)
    requires 2 <= e < d < 289 && d == e * c && Divides(e, d) && 0 < c && Divides(c, d)
    ensures HasSmallFactor(d)
  {
    assert c >= 2 by {
      assert c != 1;
    }
    assert c < d by {
      MultiplesApart(c, 1, e);
    }
    MultiplesApart(e, 17, c);
    MultiplesApart(17, 17, e);
    FactorBelow17(d, if e < 17 then e else c);
  }

  lemma FactorBelow17(d: nat, m: nat)
    requires 2 <= m < 17 && m < d && Divides(m, d)
    ensures HasSmallFactor(d)
  {
    var f := if m % 2 == 0 then 2 else if m % 3 == 0 then 3 else m;
    assert Divides(f, m);
    DividesTransitive(f, m, d);
  }

  /** Where all numbers have small factors, trial division can pass over them. */
  lemma {:induction false} PassOver(n: nat, low: nat, high: nat)
    requires NoDivisorBelow(n, low) && 0 < low <= high
    requires forall d {:trigger HasSmallFactor(d)} | low <= d < high :: HasSmallFactor(d)
    ensures NoDivisorBelow(n, high)
    decreases high - low as int
  {
    if low < high {
      NotDividedEither(n, low);
      PassOver(n, low + 1, high);
    }
  }

  lemma NotDividedEither(n: nat, d: nat)
    requires 0 < d && NoDivisorBelow(n, d) && HasSmallFactor(d)
    ensures !Divides(d, n)
  {
    var f := SmallFactor(d);
    if Divides(d, n) {
      DividesTransitive(f, d, n);
    }
  }

  // ------------------------------------------------------------------ the tables

  lemma IndexIsOnWheel(a: nat)
    requires a < M
    ensures OnWheel(Index(a)) && Index(a) < L
  {}

  lemma GapLeadsOn(a: nat)
    requires a < M
    ensures 0 < Gap(a)
    ensures Index(a) + Gap(a) == if a + 1 < M then Index(a + 1) else L + Index(0)
  {}

  lemma OffWheel1(a: nat, d: nat)
    requires 0 <= a < 12 && Index(a) < d < Index(a) + Gap(a)
    ensures !OnWheel(d)
  {}

  lemma OffWheel2(a: nat, d: nat)
    requires 12 <= a < 24 && Index(a) < d < Index(a) + Gap(a)
    ensures !OnWheel(d)
  {}

  lemma OffWheel3(a: nat, d: nat)
    requires 24 <= a < 36 && Index(a) < d < Index(a) + Gap(a)
    ensures !OnWheel(d)
  {}

  lemma OffWheel4(a: nat, d: nat)
    requires 36 <= a < 48 && Index(a) < d < Index(a) + Gap(a)
    ensures !OnWheel(d)
  {}

  /** Between two residues of the table there is none. */
  lemma OffWheel(a: nat, d: nat)
    requires a < M && Index(a) < d < Index(a) + Gap(a)
    ensures !OnWheel(d)
  {
    if a < 12 {
      OffWheel1(a, d);
    } else if a < 24 {
      OffWheel2(a, d);
    } else if a < 36 {
      OffWheel3(a, d);
    } else {
      OffWheel4(a, d);
    }
  }

  lemma BetweenPrimes1(a: nat, d: nat)
    requires 0 <= a < 12 && 0 < a && a + 1 < M && SmallPrime(a) < d < SmallPrime(a + 1)
    ensures HasSmallFactor(d)
  {}

  lemma BetweenPrimes2(a: nat, d: nat)
    requires 12 <= a < 18 && 0 < a && a + 1 < M && SmallPrime(a) < d < SmallPrime(a + 1)
    ensures HasSmallFactor(d)
  {}

  lemma BetweenPrimes3(a: nat, d: nat)
    requires 18 <= a < 24 && 0 < a && a + 1 < M && SmallPrime(a) < d < SmallPrime(a + 1)
    ensures HasSmallFactor(d)
  {}

  lemma BetweenPrimes4(a: nat, d: nat)
    requires 24 <= a < 30 && 0 < a && a + 1 < M && SmallPrime(a) < d < SmallPrime(a + 1)
    ensures HasSmallFactor(d)
  {}

  lemma BetweenPrimes5(a: nat, d: nat)
    requires 30 <= a < 36 && 0 < a && a + 1 < M && SmallPrime(a) < d < SmallPrime(a + 1)
    ensures HasSmallFactor(d)
  {}

  lemma BetweenPrimes6(a: nat, d: nat)
    requires 36 <= a < 42 && 0 < a && a + 1 < M && SmallPrime(a) < d < SmallPrime(a + 1)
    ensures HasSmallFactor(d)
  {}

  lemma BetweenPrimes7(a: nat, d: nat)
    requires 42 <= a < 45 && 0 < a && a + 1 < M && SmallPrime(a) < d < SmallPrime(a + 1)
    ensures HasSmallFactor(d)
  {}

  lemma BetweenPrimes8(a: nat, d: nat)
    requires 45 <= a < 48 && 0 < a && a + 1 < M && SmallPrime(a) < d < SmallPrime(a + 1)
    ensures HasSmallFactor(d)
  {}

  /** Between two small primes every number has a small factor. */
  lemma BetweenPrimes(a: nat, d: nat)
    requires 0 < a && a + 1 < M && SmallPrime(a) < d < SmallPrime(a + 1)
    ensures HasSmallFactor(d)
  {
    if a < 12 {
      BetweenPrimes1(a, d);
    } else if a < 18 {
      BetweenPrimes2(a, d);
    } else if a < 24 {
      BetweenPrimes3(a, d);
    } else if a < 30 {
      BetweenPrimes4(a, d);
    } else if a < 36 {
      BetweenPrimes5(a, d);
    } else if a < 42 {
      BetweenPrimes6(a, d);
    } else if a < 45 {
      BetweenPrimes7(a, d);
    } else {
      BetweenPrimes8(a, d);
    }
  }

  lemma SmallPrimesAscend(a: nat)
    requires a + 1 < M
    ensures SmallPrime(a) < SmallPrime(a + 1) <= 211
  {}

  lemma SmallPrimeIsPrime(a: nat)
    requires 0 < a < M
    ensures IsPrime(SmallPrime(a))
  {
    SmallPrimeFactorless(a);
    NoSmallFactorIsPrime(SmallPrime(a));
  }

  lemma SmallPrimeFactorless(a: nat)
    requires 0 < a < M
    ensures 2 <= SmallPrime(a) <= 211 && !HasSmallFactor(SmallPrime(a))
  {}

  // -------------------------------------------------------------- the algorithm

  const INDICES: seq<nat> := seq(M, (a: nat) => Index(a))
  const SMALL_PRIMES: seq<nat> := seq(M, (a: nat) => SmallPrime(a))

  /** The first position of an ascending sequence whose entry is not less than x. */
  method LowerBound(s: seq<nat>, x: nat) returns (a: nat)
    requires forall i, j {:trigger s[i], s[j]} | 0 <= i < j < |s| :: s[i] < s[j]
    ensures a <= |s|
    ensures forall i {:trigger s[i]} | 0 <= i < |s| :: s[i] < x <==> i < a
  {
    a := 0;
    var count: nat := |s|;
    while count > 0
      invariant a + count <= |s|
      invariant forall i {:trigger s[i]} | 0 <= i < a :: s[i] < x
      invariant forall i {:trigger s[i]} | a + count <= i < |s| :: x <= s[i]
    {
      var step := count / 2;
      if s[a + step] < x {
        a := a + step + 1;
        count := count - (step + 1);
      } else {
        count := step;
      }
    }
  }

  lemma {:induction false} SmallPrimesSorted(i: nat, j: nat)
    requires i < j < M
    ensures SmallPrime(i) < SmallPrime(j)
    decreases j - i as int
  {
    SmallPrimesAscend(i);
    if i + 1 < j {
      SmallPrimesSorted(i + 1, j);
    }
  }

  lemma {:induction false} IndicesSorted(i: nat, j: nat)
    requires i < j < M
    ensures Index(i) < Index(j)
    decreases j - i as int
  {
    GapLeadsOn(i);
    if i + 1 < j {
      IndicesSorted(i + 1, j);
    }
  }

  /** The first prime not less than n, if the table reaches that far. */
  method SearchSmallPrimes(n: nat) returns (p: nat)
    requires n <= 211
    ensures n == 0 ==> p == 0
    ensures n > 0 ==> p >= n && IsPrime(p) && NoPrimeIn(n, p)
  {
    forall i, j | 0 <= i < j < M ensures SMALL_PRIMES[i] < SMALL_PRIMES[j] {
      SmallPrimesSorted(i, j);
    }
    assert SMALL_PRIMES[M - 1] == 211 && SMALL_PRIMES[0] == 0;
    var a := LowerBound(SMALL_PRIMES, n);
    assert a < M;
    p := SMALL_PRIMES[a];
    if n > 0 {
      assert a > 0;
      SmallPrimeIsPrime(a);
      forall m | n <= m < p ensures !IsPrime(m) {
        if a > 1 {
          assert SMALL_PRIMES[a - 1] < n;
          BetweenPrimes(a - 1, m);
          SmallFactorIsProper(m);
        }
      }
    } else {
      assert a == 0;
    }
  }

  datatype Verdict = Prime | Composite | Unknown

  lemma WheelStart(n: nat)
    requires OnWheel(n)
    ensures NoDivisorBelow(n, 11)
  {
    assert !Divides(2, n) && !Divides(3, n) && !Divides(5, n) && !Divides(7, n);
    PassOver(n, 4, 5);
    PassOver(n, 6, 7);
    PassOver(n, 8, 11);
  }

  /** Divides n by the small primes from 11 on. */
  method TrySmallPrimes(n: nat) returns (v: Verdict)
    requires n > 211 && OnWheel(n)
    ensures v.Prime? ==> IsPrime(n)
    ensures v.Composite? ==> !IsPrime(n)
    ensures v.Unknown? ==> NoDivisorBelow(n, 211)
  {
    WheelStart(n);
    for j := 5 to M - 1
      invariant NoDivisorBelow(n, SmallPrime(j))
    {
      var p := SmallPrime(j);
      SmallPrimesAscend(j);
      SmallPrimeFactorless(j);
      var q := n / p;
      DivisionTest(n, p);
      if q < p {
        NoneBelowRootIsPrime(n, p);
        return Prime;
      }
      if n == q * p {
        MultiplesApart(p, 1, q);
        assert p < n;
        return Composite;
      }
      forall d | p + 1 <= d < SmallPrime(j + 1) ensures HasSmallFactor(d) {
        BetweenPrimes(j, d);
      }
      PassOver(n, p + 1, SmallPrime(j + 1));
    }
    return Unknown;
  }

  /** The wheel has period 210. */
  lemma WheelRepeats(m: nat, r: nat)
    ensures OnWheel(L * m + r) <==> OnWheel(r)
  {
    ModUnique(L * m + r, 2, 105 * m + r / 2, r % 2);
    ModUnique(L * m + r, 3, 70 * m + r / 3, r % 3);
    ModUnique(L * m + r, 5, 42 * m + r / 5, r % 5);
    ModUnique(L * m + r, 7, 30 * m + r / 7, r % 7);
  }

  lemma OffWheelAt(m: nat, a: nat, d: nat)
    requires a < M && L * m + Index(a) < d < L * m + Index(a) + Gap(a)
    ensures !OnWheel(d)
  {
    OffWheel(a, d - L * m);
    WheelRepeats(m, d - L * m);
  }

  lemma BelowRoot(n: nat, i: nat)
    requires 2 <= i <= n / i
    ensures i < n
  {
    MultiplesApart(i, 1, n / i);
    assert n == i * (n / i) + n % i;
  }

  /** From one potential divisor to the next. */
  lemma PassGap(n: nat, m: nat, a: nat, i: nat)
    requires a < M && i == L * m + Index(a) && 211 <= i && NoDivisorBelow(n, i) && !Divides(i, n)
    ensures 0 < Gap(a) && NoDivisorBelow(n, i + Gap(a))
    ensures i + Gap(a) == if a + 1 < M then L * m + Index(a + 1) else L * (m + 1) + Index(0)
  {
    GapLeadsOn(a);
    forall d | i + 1 <= d < i + Gap(a) ensures HasSmallFactor(d) {
      OffWheelAt(m, a, d);
    }
    PassOver(n, i + 1, i + Gap(a));
  }

  /** Divides n by the potential primes from 211 on. */
  method TryPotentialPrimes(n: nat) returns (prime: bool)
    requires n > 211 && OnWheel(n) && NoDivisorBelow(n, 211)
    ensures prime <==> IsPrime(n)
  {
    var i, a: nat := 211, 0;
    ghost var m: nat := 1;
    while true
      invariant a < M && i == L * m + Index(a) && 211 <= i && NoDivisorBelow(n, i)
      decreases n - i as int
    {
      var q := n / i;
      DivisionTest(n, i);
      if q < i {
        NoneBelowRootIsPrime(n, i);
        return true;
      }
      BelowRoot(n, i);
      if n == q * i {
        return false;
      }
      PassGap(n, m, a, i);
      i := i + Gap(a);
      m := if a + 1 < M then m else m + 1;
      a := if a + 1 < M then a + 1 else 0;
    }
  }

  /** Is the potential prime n a prime? */
  method IsPotentialPrimePrime(n: nat) returns (prime: bool)
    requires n > 211 && OnWheel(n)
    ensures prime <==> IsPrime(n)
  {
    var v := TrySmallPrimes(n);
    if v.Unknown? {
      prime := TryPotentialPrimes(n);
    } else {
      prime := v.Prime?;
    }
  }

  lemma OffWheelIsComposite(m: nat)
    requires m > 7 && !OnWheel(m)
    ensures !IsPrime(m)
  {
    SmallFactorIsProper(m);
  }

  lemma PotentialPrimeIsOnWheel(k: nat, a: nat)
    requires a < M
    ensures OnWheel(L * k + Index(a))
  {
    IndexIsOnWheel(a);
    WheelRepeats(k, Index(a));
  }

  /** The first potential prime not less than n. */
  method FirstPotentialPrime(n: nat) returns (k0: nat, a: nat)
    requires n > 211
    ensures a < M && n <= L * k0 + Index(a) && NoPrimeIn(n, L * k0 + Index(a))
  {
    k0 := n / L;
    forall i, j | 0 <= i < j < M ensures INDICES[i] < INDICES[j] {
      IndicesSorted(i, j);
    }
    assert INDICES[M - 1] == 209 && INDICES[0] == 1;
    a := LowerBound(INDICES, n - k0 * L);
    assert a < M;
    assert INDICES[a] >= n - k0 * L;
    assert a > 0 ==> INDICES[a - 1] < n - k0 * L;
    NothingSkipped(n, k0, a);
  }

  /** Between n and the first potential prime not less than n there is no prime. */
  lemma NothingSkipped(n: nat, k0: nat, a: nat)
    requires n > 7 && a < M && n >= L * k0 && (a > 0 ==> L * k0 + Index(a - 1) < n)
    ensures NoPrimeIn(n, L * k0 + Index(a))
  {
    forall m | n <= m < L * k0 + Index(a) ensures !IsPrime(m) {
      if a > 0 {
        GapLeadsOn(a - 1);
        OffWheelAt(k0, a - 1, m);
      } else {
        assert m == L * k0;
      }
      OffWheelIsComposite(m);
    }
  }

  /** Searches the potential primes from number 210 * k0 + Index(a) on. */
  method SearchPotentialPrimes(n: nat, k: nat, first: nat) returns (p: nat)
    requires n > 211 && first < M && n <= L * k + Index(first) && NoPrimeIn(n, L * k + Index(first))
    ensures p >= n && IsPrime(p) && NoPrimeIn(n, p)
  {
    var k0: nat, a: nat := k, first;
    p := L * k0 + Index(a);
    ghost var bound := PrimeAbove(n);
    while true
      invariant a < M && p == L * k0 + Index(a) && n <= p && NoPrimeIn(n, p)
      decreases bound - p as int
    {
      PotentialPrimeIsOnWheel(k0, a);
      var prime := IsPotentialPrimePrime(p);
      if prime {
        return;
      }
      GapLeadsOn(a);
      forall m | p <= m < p + Gap(a) ensures !IsPrime(m) {
        if m > p {
          OffWheelAt(k0, a, m);
          OffWheelIsComposite(m);
        }
      }
      assert p < bound;
      if a + 1 == M {
        k0, a := k0 + 1, 0;
      } else {
        a := a + 1;
      }
      p := L * k0 + Index(a);
    }
  }

  /** Zero for zero, an error if there is no 64-bit prime from n on, otherwise the least prime
      that is not less than n, which fits in 64 bits. */
  method NextPrime(n: nat) returns (r: Result)
    ensures n == 0 ==> r == Ok(0)
    ensures n > LIMIT <==> r == Overflow
    ensures r == Overflow ==> NoPrimeIn(n, TWO_TO_THE_64)
    ensures 0 < n <= LIMIT ==> r.Ok? && n <= r.value < TWO_TO_THE_64 && IsPrime(r.value) && NoPrimeIn(n, r.value)
  {
    LimitIsPrime();
    NoneAboveLimit();
    if n <= 211 {
      var p := SearchSmallPrimes(n);
      return Ok(p);
    }
    if n > LIMIT {
      return Overflow;
    }
    var k0, a := FirstPotentialPrime(n);
    var p := SearchPotentialPrimes(n, k0, a);
    return Ok(p);
  }
}
