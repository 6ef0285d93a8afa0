/** The largest prime number below 2 to the 64: that it is prime follows from Pocklington's
    criterion, and none of the numbers above it is. */
module LargestPrime {
  import opened Divisibility
  import opened Sums

  const LIMIT: nat := 0xFFFF_FFFF_FFFF_FFC5
  const TWO_TO_THE_64: nat := 0x1_0000_0000_0000_0000

  /** The largest prime factor of the limit less one. */
  const FACTOR: nat := 5594472617641

  // ------------------------------------------------------------------ Euclid's lemma

  lemma {:induction false} Euclid(p: nat, k: nat, x: nat)
    requires IsPrime(p) && !Divides(p, k) && Divides(p, k * x)
    ensures Divides(p, x)
    decreases k
  {
    if k >= p {
      Reduced(p, k, x);
      Euclid(p, k % p, x);
    } else if k > 1 {
      Remainder(p, k, x);
      Euclid(p, p % k, x);
    }
  }

  lemma Reduced(p: nat, k: nat, x: nat)
    requires 0 < p <= k && !Divides(p, k) && Divides(p, k * x)
    ensures k % p < k && !Divides(p, k % p) && Divides(p, k % p * x)
  {
    var c, r := k / p, k % p;
    assert k == p * c + r;
    assert k * x == p * (c * x) + r * x;
    DividesRest(p, c * x, r * x);
    ModUnique(r, p, 0, r);
  }

  lemma Remainder(p: nat, k: nat, x: nat)
    requires IsPrime(p) && 1 < k < p && Divides(p, k * x)
    ensures p % k < k && !Divides(p, p % k) && Divides(p, p % k * x)
  {
    var c, r := p / k, p % k;
    assert !Divides(k, p);
    assert p == k * c + r;
    assert p * x == c * (k * x) + r * x;
    MultipleIsDivided(p, x);
    DividesMultiple(p, k * x, c);
    DividesRest2(p, c * (k * x), r * x);
    ModUnique(r, p, 0, r);
  }

  lemma DividesRest(p: nat, c: nat, y: nat)
    requires 0 < p && Divides(p, p * c + y)
    ensures Divides(p, y)
  {
    var d := (p * c + y) / p;
    assert p * c + y == p * d;
    MultiplesApart(p, d, c);
    assert d >= c || y == 0;
    assert y == p * (d - c);
    if d >= c {
      MultipleIsDivided(p, d - c);
    }
  }

  lemma DividesMultiple(p: nat, a: nat, c: nat)
    requires 0 < p && Divides(p, a)
    ensures Divides(p, c * a)
  {
    assert a == p * (a / p);
    assert c * a == p * (c * (a / p));
    MultipleIsDivided(p, c * (a / p));
  }

  /** What divides a sum and one of its terms divides the other. */
  lemma DividesRest2(p: nat, a: nat, y: nat)
    requires 0 < p && Divides(p, a) && Divides(p, a + y)
    ensures Divides(p, y)
  {
    assert a == p * (a / p);
    DividesRest(p, a / p, y);
  }

  // ------------------------------------------------- Fermat's little theorem, for 2

  function Product(s: seq<nat>): nat {
    if s == [] then 1 else s[0] * Product(s[1..])
  }

  /** 2 to the e. */
  function Pow(e: nat): nat {
    Product(seq(e, _ => 2))
  }

  lemma PowNext(e: nat)
    ensures Pow(0) == 1 && Pow(e + 1) == 2 * Pow(e)
  {
    assert seq(e + 1, _ => 2)[1..] == seq(e, _ => 2);
  }

  lemma {:induction false} PowPositive(e: nat)
    ensures Pow(e) >= 1
  {
    if e > 0 {
      PowPositive(e - 1);
      PowNext(e - 1);
    }
  }

  function Choose(n: nat, k: nat): nat {
    if k == 0 then 1 else if n == 0 then 0 else Choose(n - 1, k - 1) + Choose(n - 1, k)
  }

  function RowSum(n: nat, m: nat): nat {
    if m == 0 then 0 else RowSum(n, m - 1) + Choose(n, m - 1)
  }

  lemma {:induction false} ChooseNone(n: nat, k: nat)
    requires k > n
    ensures Choose(n, k) == 0
  {
    if n > 0 {
      ChooseNone(n - 1, k - 1);
      ChooseNone(n - 1, k);
    }
  }

  lemma {:induction false} ChooseAll(n: nat)
    ensures Choose(n, n) == 1
  {
    if n > 0 {
      ChooseAll(n - 1);
      ChooseNone(n - 1, n);
    }
  }

  lemma {:induction false} RowSumStep(n: nat, m: nat)
    ensures RowSum(n + 1, m + 1) == RowSum(n, m + 1) + RowSum(n, m)
  {
    if m > 0 {
      RowSumStep(n, m - 1);
      assert Choose(n + 1, m) == Choose(n, m - 1) + Choose(n, m);
    }
  }

  lemma {:induction false} RowSumIsPow(n: nat)
    ensures RowSum(n, n + 1) == Pow(n)
  {
    PowNext(n);
    if n == 0 {
      assert RowSum(0, 0) == 0;
    } else {
      PowNext(n - 1);
      RowSumIsPow(n - 1);
      RowSumStep(n - 1, n);
      ChooseNone(n - 1, n);
      assert RowSum(n - 1, n + 1) == RowSum(n - 1, n) + Choose(n - 1, n);
    }
  }

  lemma {:induction false} Absorption(n: nat, k: nat)
    requires n > 0 && k > 0
    ensures k * Choose(n, k) == n * Choose(n - 1, k - 1)
  {
    if n == 1 {
      assert Choose(0, k) == 0;
      assert k > 1 ==> Choose(0, k - 1) == 0;
    } else {
      Absorption(n - 1, k);
      if k > 1 {
        Absorption(n - 1, k - 1);
        AbsorptionStep(n, k, Choose(n - 1, k - 1), Choose(n - 1, k), Choose(n - 2, k - 1), Choose(n - 2, k - 2));
      } else {
        AbsorptionStep(n, k, Choose(n - 1, k - 1), Choose(n - 1, k), Choose(n - 2, k - 1), 0);
      }
    }
  }

  lemma AbsorptionStep(n: nat, k: nat, a: nat, b: nat, c: nat, d: nat)
    requires n > 0 && k > 0 && a == c + d && k * b == (n - 1) * c && (k - 1) * a == (n - 1) * d
    ensures k * (a + b) == n * a
  {
    assert k * (a + b) == (k - 1) * a + a + k * b;
    assert (n - 1) * (c + d) == (n - 1) * c + (n - 1) * d;
  }

  lemma PrimeDividesChoose(p: nat, k: nat)
    requires IsPrime(p) && 0 < k < p
    ensures Divides(p, Choose(p, k))
  {
    Absorption(p, k);
    MultipleIsDivided(p, Choose(p - 1, k - 1));
    ModUnique(k, p, 0, k);
    Euclid(p, k, Choose(p, k));
  }

  lemma DividesSum(p: nat, a: nat, b: nat)
    requires 0 < p && Divides(p, a) && Divides(p, b)
    ensures Divides(p, a + b)
  {
    assert a + b == p * (a / p) + p * (b / p) == p * (a / p + b / p);
    MultipleIsDivided(p, a / p + b / p);
  }

  lemma {:induction false} PrimeDividesRow(p: nat, m: nat)
    requires IsPrime(p) && 0 < m <= p
    ensures RowSum(p, m) >= 1 && Divides(p, RowSum(p, m) - 1)
  {
    if m == 1 {
      assert RowSum(p, 1) == RowSum(p, 0) + 1;
    } else {
      PrimeDividesRow(p, m - 1);
      PrimeDividesChoose(p, m - 1);
      DividesSum(p, RowSum(p, m - 1) - 1, Choose(p, m - 1));
    }
  }

  /** 2 to the e leaves 1. */
  ghost predicate LeavesOne(e: nat, p: nat)
    requires p > 0
  {
    PowPositive(e);
    Divides(p, Pow(e) - 1)
  }

  lemma Fermat(p: nat)
    requires IsPrime(p) && p > 2
    ensures LeavesOne(p - 1, p)
  {
    RowSumIsPow(p);
    PowNext(p - 1);
    ChooseAll(p);
    PrimeDividesRow(p, p);
    assert 2 * (Pow(p - 1) - 1) == RowSum(p, p) - 1;
    ModUnique(2, p, 0, 2);
    Euclid(p, 2, Pow(p - 1) - 1);
  }

  // -------------------------------------------------------------------- orders

  lemma {:induction false} PowSum(a: nat, b: nat)
    ensures Pow(a + b) == Pow(a) * Pow(b)
  {
    PowNext(0);
    if a > 0 {
      PowSum(a - 1, b);
      PowNext(a - 1);
      PowNext(a - 1 + b);
    }
  }

  lemma OneDifference(a: nat, b: nat, p: nat)
    requires p > 0 && LeavesOne(a, p)
    ensures LeavesOne(a + b, p) <==> LeavesOne(b, p)
  {
    PowSum(a, b);
    PowPositive(a);
    PowPositive(b);
    PowPositive(a + b);
    var x: nat, y: nat := (Pow(a) - 1) * Pow(b), Pow(b) - 1;
    assert Pow(a + b) - 1 == x + y;
    assert x == Pow(b) * (Pow(a) - 1);
    DividesMultiple(p, Pow(a) - 1, Pow(b));
    if LeavesOne(b, p) {
      DividesSum(p, x, y);
    }
    if LeavesOne(a + b, p) {
      DividesRest2(p, x, y);
    }
  }

  ghost predicate IsOrder(d: nat, p: nat) {
    0 < p && 0 < d && LeavesOne(d, p) && forall e {:trigger LeavesOne(e, p)} | 0 < e < d :: !LeavesOne(e, p)
  }

  lemma {:induction false} OrderExists(p: nat, e: nat, low: nat) returns (d: nat)
    requires 0 < low <= e && 0 < p && LeavesOne(e, p)
    requires forall x {:trigger LeavesOne(x, p)} | 0 < x < low :: !LeavesOne(x, p)
    ensures IsOrder(d, p)
    decreases e - low
  {
    if LeavesOne(low, p) {
      d := low;
    } else {
      d := OrderExists(p, e, low + 1);
    }
  }

  lemma {:induction false} OrderDivides(d: nat, p: nat, e: nat)
    requires IsOrder(d, p)
    ensures LeavesOne(e, p) <==> Divides(d, e)
  {
    if e < d {
      PowNext(0);
      ModUnique(e, d, 0, e);
      ModUnique(0, p, 0, 0);
    } else {
      OneDifference(d, e - d, p);
      OrderDivides(d, p, e - d);
      if Divides(d, e - d) {
        DividesSum(d, d, e - d);
      }
      if Divides(d, e) {
        DividesRest2(d, d, e - d);
      }
    }
  }

  /** If 2 to the qm leaves 1 but 2 to the m does not, the prime q divides p - 1. */
  lemma OrderHasFactor(q: nat, m: nat, p: nat)
    requires IsPrime(p) && p > 2 && IsPrime(q) && LeavesOne(q * m, p) && !LeavesOne(m, p)
    ensures Divides(q, p - 1)
  {
    Fermat(p);
    var d := OrderExists(p, p - 1, 1);
    OrderDivides(d, p, p - 1);
    OrderDivides(d, p, q * m);
    OrderDivides(d, p, m);
    if !Divides(q, p - 1) {
      if Divides(q, d) {
        DividesTransitive(q, d, p - 1);
      }
      var c := q * m / d;
      assert q * m == d * c;
      MultipleIsDivided(q, m);
      Euclid(q, d, c);
      assert c == q * (c / q);
      assert q * m == q * (d * (c / q));
      MultiplesApart(q, m, d * (c / q));
      MultiplesApart(q, d * (c / q), m);
      MultipleIsDivided(d, c / q);
    }
  }

  // ----------------------------------------------------------- Pocklington's criterion

  /** 2 to the e is x modulo n. */
  ghost predicate Leaves(n: nat, e: nat, x: nat)
    requires n > 0
  {
    Pow(e) % n == x % n
  }

  lemma ModSame(a: nat, n: nat, c: nat, b: nat)
    requires n > 0 && a == n * c + b
    ensures a % n == b % n
  {
    assert b == n * (b / n) + b % n;
    assert n * (c + b / n) == n * c + n * (b / n);
    ModUnique(a, n, c + b / n, b % n);
  }

  lemma ModTimes(a: nat, b: nat, n: nat)
    requires n > 0
    ensures (a * b) % n == (a % n * b) % n
  {
    var c, r := a / n, a % n;
    assert a == n * c + r;
    assert a * b == n * (c * b) + r * b;
    ModSame(a * b, n, c * b, r * b);
  }

  lemma LeavesProduct(n: nat, e: nat, x: nat, f: nat, y: nat)
    requires n > 0 && Leaves(n, e, x) && Leaves(n, f, y)
    ensures Leaves(n, e + f, x * y)
  {
    PowSum(e, f);
    var a, b := Pow(e), Pow(f);
    ModTimes(a, b, n);
    ModTimes(x, b, n);
    ModTimes(b, x, n);
    ModTimes(y, x, n);
    assert (x * b) % n == (b * x) % n && (y * x) % n == (x * y) % n;
  }

  lemma FourthLeaves(n: nat, e: nat, a: nat)
    requires n > 0 && Leaves(n, e, a)
    ensures Leaves(n, 4 * e, a * a * a * a)
  {
    LeavesProduct(n, e, a, e, a);
    LeavesProduct(n, e + e, a * a, e, a);
    LeavesProduct(n, e + e + e, a * a * a, e, a);
    assert 4 * e == e + e + e + e;
  }

  lemma Raised(n: nat, m: nat, f: nat, x: nat, d: nat, w: nat, y: nat)
    requires n > 0 && Leaves(n, 4 * (m * f), x) && Leaves(n, m * d, w) && y == x * w % n
    ensures Leaves(n, m * (4 * f + d), y)
  {
    LeavesProduct(n, 4 * (m * f), x, m * d, w);
    assert 4 * (m * f) + m * d == m * (4 * f + d);
    LeavesRest(n, m * (4 * f + d), x * w, y);
  }

  lemma LeavesRest(n: nat, e: nat, x: nat, y: nat)
    requires n > 0 && Leaves(n, e, x) && y == x % n
    ensures Leaves(n, e, y)
  {
    ModUnique(y, n, 0, y);
  }

  function Power(b: nat, d: nat): nat {
    if d == 0 then 1 else if d == 1 then b else if d == 2 then b * b else b * b * b
  }

  lemma PowerLeaves(n: nat, m: nat, b: nat, d: nat)
    requires n > 0 && d < 4 && Leaves(n, m, b)
    ensures Leaves(n, m * d, Power(b, d))
  {
    PowNext(0);
    if d >= 2 {
      LeavesProduct(n, m, b, m, b);
    }
    if d == 3 {
      LeavesProduct(n, m + m, b * b, m, b);
    }
  }

  /** From one exponent and power of b to the next: the exponent has one more digit to base four. */
  predicate Step(n: nat, b: nat, f: nat, a: nat, e: nat, y: nat)
    requires n > 0
  {
    e / 4 == f && y == a * a * a * a * Power(b, e % 4) % n
  }

  ghost predicate Trail(n: nat, b: nat, t: seq<(nat, nat)>)
    requires n > 0
  {
    forall i {:trigger t[i]} | 0 < i < |t| :: Step(n, b, t[i - 1].0, t[i - 1].1, t[i].0, t[i].1)
  }

  lemma StepLeaves(n: nat, m: nat, b: nat, f: nat, a: nat, e: nat, y: nat)
    requires n > 0 && Leaves(n, m, b) && Leaves(n, m * f, a) && Step(n, b, f, a, e, y)
    ensures Leaves(n, m * e, y)
  {
    var d := e % 4;
    FourthLeaves(n, m * f, a);
    PowerLeaves(n, m, b, d);
    Raised(n, m, f, a * a * a * a, d, Power(b, d), y);
    assert e == 4 * f + d;
  }

  /** If 2 to the m is b, a trail of powers of b ends with a power of 2. */
  lemma {:induction false} TrailLeaves(n: nat, m: nat, b: nat, t: seq<(nat, nat)>, k: nat)
    requires n > 0 && Trail(n, b, t) && k < |t| && Leaves(n, m, b) && Leaves(n, m * t[0].0, t[0].1)
    ensures Leaves(n, m * t[k].0, t[k].1)
  {
    if k > 0 {
      TrailLeaves(n, m, b, t, k - 1);
      assert t[k] == (t[k].0, t[k].1);
      StepLeaves(n, m, b, t[k - 1].0, t[k - 1].1, t[k].0, t[k].1);
    }
  }

  /** What shows for a prime factor q of n - 1 that it divides p - 1 for every prime factor p
      of n: 2 to the n - 1 leaves 1, and 2 to the (n - 1) / q leaves y, whose distance from 1
      has inverse u. */
  ghost predicate Witness(n: nat, q: nat, m: nat, y: nat, u: nat) {
    n > 2 && n - 1 == q * m && Leaves(n, q * m, 1) && 1 <= y < n && Leaves(n, m, y) && (y - 1) * u % n == 1
  }

  lemma LessOneModulo(p: nat, n: nat, x: nat)
    requires 0 < p && 0 < n && Divides(p, n) && x % n >= 1
    ensures Divides(p, x - 1) <==> Divides(p, x % n - 1)
  {
    var c, y: nat := x / n, x % n - 1;
    assert x - 1 == c * n + y;
    DividesMultiple(p, n, c);
    if Divides(p, y) {
      DividesSum(p, c * n, y);
    }
    if Divides(p, x - 1) {
      DividesRest2(p, c * n, y);
    }
  }

  lemma NothingDividesOne(p: nat, n: nat, x: nat)
    requires 1 < p && 0 < n && Divides(p, n) && x % n == 1
    ensures !Divides(p, x)
  {
    assert x == x / n * n + 1;
    DividesMultiple(p, n, x / n);
    if Divides(p, x) {
      DividesRest2(p, x / n * n, 1);
    }
  }

  lemma WitnessLeaves(n: nat, q: nat, m: nat, y: nat, u: nat, p: nat)
    requires Witness(n, q, m, y, u) && 1 < p && Divides(p, n)
    ensures LeavesOne(q * m, p) && !LeavesOne(m, p)
  {
    LeavesModulo(n, p, q * m, 1);
    LeavesModulo(n, p, m, y);
    ModUnique(0, p, 0, 0);
    var z: nat := y - 1;
    if Divides(p, z) {
      DividesMultiple(p, z, u);
      assert z * u == u * z;
      NothingDividesOne(p, n, z * u);
    }
  }

  lemma LeavesModulo(n: nat, p: nat, e: nat, y: nat)
    requires 0 < p && 1 <= y < n && Divides(p, n) && Leaves(n, e, y)
    ensures LeavesOne(e, p) <==> Divides(p, y - 1)
  {
    PowPositive(e);
    ModUnique(y, n, 0, y);
    LessOneModulo(p, n, Pow(e));
  }

  lemma TwoDoesNotDivide(n: nat, q: nat, m: nat, y: nat, u: nat)
    requires Witness(n, q, m, y, u)
    ensures !Divides(2, n)
  {
    if Divides(2, n) {
      PowNext(q * m - 1);
      PowPositive(q * m - 1);
      WitnessLeaves(n, q, m, y, u, 2);
    }
  }

  lemma FactorIsLarge(n: nat, q: nat, m: nat, y: nat, u: nat, p: nat)
    requires Witness(n, q, m, y, u) && IsPrime(q) && IsPrime(p) && Divides(p, n)
    ensures Divides(q, p - 1)
  {
    TwoDoesNotDivide(n, q, m, y, u);
    WitnessLeaves(n, q, m, y, u, p);
    OrderHasFactor(q, m, p);
  }

  /** A number all whose prime factors are above f, which is above its root, is prime. */
  lemma LargeFactorsOnly(n: nat, f: nat)
    requires n >= 2 && n < f * f && forall p {:trigger IsPrime(p)} | IsPrime(p) && Divides(p, n) :: f < p
    ensures IsPrime(n)
  {
    forall d | 2 <= d < n ensures !Divides(d, n) {
      if Divides(d, n) {
        Cofactor(d, n);
        var p := SomePrimeDivides(d);
        var r := SomePrimeDivides(n / d);
        DividesTransitive(p, d, n);
        DividesTransitive(r, n / d, n);
        Largest(p, d);
        Largest(r, n / d);
        MultiplesOrdered(f, f, d);
        MultiplesOrdered(d, f, n / d);
      }
    }
  }

  lemma Largest(p: nat, d: nat)
    requires 0 < d && 0 < p && Divides(p, d)
    ensures p <= d
  {
    assert d == p * (d / p);
  }

  // --------------------------------------------------------------- the numbers

  /** None of the numbers from low on and below high divides n. */
  predicate NoneDivides(n: nat, low: nat, high: nat)
    requires low > 0
    decreases high - low as int
  {
    low >= high || (n % low != 0 && NoneDivides(n, low + 1, high))
  }

  lemma {:induction false} NoneOf(n: nat, low: nat, high: nat)
    requires 0 < low <= high && NoDivisorBelow(n, low) && NoneDivides(n, low, high)
    ensures NoDivisorBelow(n, high)
    decreases high - low
  {
    if low < high {
      NoneOf(n, low + 1, high);
    }
  }

  lemma NoneBelow72()
    ensures NoDivisorBelow(15331, 72)
  {
    NoneOf(15331, 2, 12);
    NoneOf(15331, 12, 22);
    NoneOf(15331, 22, 32);
    NoneOf(15331, 32, 42);
    NoneOf(15331, 42, 52);
    NoneOf(15331, 52, 62);
    NoneOf(15331, 62, 72);
  }

  lemma NoneBelow124()
    ensures NoDivisorBelow(15331, 124)
  {
    NoneBelow72();
    NoneOf(15331, 72, 82);
    NoneOf(15331, 82, 92);
    NoneOf(15331, 92, 102);
    NoneOf(15331, 102, 112);
    NoneOf(15331, 112, 122);
    NoneOf(15331, 122, 124);
  }

  lemma SmallFactorsPrime()
    ensures IsPrime(2131) && IsPrime(15331)
  {
    NoneOf(2131, 2, 12);
    NoneOf(2131, 12, 22);
    NoneOf(2131, 22, 32);
    NoneOf(2131, 32, 42);
    NoneOf(2131, 42, 47);
    NoneBelowRootIsPrime(2131, 47);
    NoneBelow124();
    NoneBelowRootIsPrime(15331, 124);
  }

  lemma BothDivide(a: nat, b: nat, x: nat)
    requires 0 < a && IsPrime(b) && !Divides(b, a) && Divides(a, x) && Divides(b, x) && x > 0
    ensures a * b <= x
  {
    var c := x / a;
    assert x == a * c;
    Euclid(b, a, c);
    Largest(b, c);
    MultiplesOrdered(a, b, c);
  }

  /** Powers of 2 modulo the factor, digit by digit of the exponent. */
  const FACTOR_TRAIL_1: seq<(nat, nat)> := [(0, 1), (2, 4), (10, 1024), (41, 2199023255552),
    (167, 4272095969527), (668, 3095858400560), (2675, 1606403350840), (10702, 2065344583803),
    (42810, 4834341319026), (171240, 552689412041)]

  lemma FactorTrail1()
    ensures Trail(FACTOR, 2, FACTOR_TRAIL_1)
  {
    assert Step(5594472617641, 2, 0, 1, 2, 4);
    assert Step(5594472617641, 2, 2, 4, 10, 1024);
    assert Step(5594472617641, 2, 10, 1024, 41, 2199023255552);
    assert Step(5594472617641, 2, 41, 2199023255552, 167, 4272095969527);
    assert Step(5594472617641, 2, 167, 4272095969527, 668, 3095858400560);
    assert Step(5594472617641, 2, 668, 3095858400560, 2675, 1606403350840);
    assert Step(5594472617641, 2, 2675, 1606403350840, 10702, 2065344583803);
    assert Step(5594472617641, 2, 10702, 2065344583803, 42810, 4834341319026);
    assert Step(5594472617641, 2, 42810, 4834341319026, 171240, 552689412041);
  }

  lemma FactorPower1()
    ensures Leaves(FACTOR, 171240, 552689412041)
  {
    FactorTrail1();
    PowNext(0);
    TrailLeaves(FACTOR, 1, 2, FACTOR_TRAIL_1, 9);
  }

  const FACTOR_TRAIL_2: seq<(nat, nat)> := [(0, 1), (2, 1367522132537), (8, 948608969768), (33, 4724465677733),
    (133, 5153863569035), (532, 1549243108211), (2131, 1852426820963)]

  lemma FactorTrail2()
    ensures Trail(FACTOR, 552689412041, FACTOR_TRAIL_2)
  {
    assert Step(5594472617641, 552689412041, 0, 1, 2, 1367522132537);
    assert Step(5594472617641, 552689412041, 2, 1367522132537, 8, 948608969768);
    assert Step(5594472617641, 552689412041, 8, 948608969768, 33, 4724465677733);
    assert Step(5594472617641, 552689412041, 33, 4724465677733, 133, 5153863569035);
    assert Step(5594472617641, 552689412041, 133, 5153863569035, 532, 1549243108211);
    assert Step(5594472617641, 552689412041, 532, 1549243108211, 2131, 1852426820963);
  }

  lemma FactorPower2()
    ensures Leaves(FACTOR, 364912440, 1852426820963)
  {
    FactorPower1();
    FactorTrail2();
    PowNext(0);
    TrailLeaves(FACTOR, 171240, 552689412041, FACTOR_TRAIL_2, 6);
  }

  const FACTOR_TRAIL_3: seq<(nat, nat)> := [(0, 1), (3, 4547743987999), (14, 1052288259049),
    (59, 5356572467510), (239, 2357377625368), (958, 5092139528736), (3832, 4128103346875),
    (15331, 1346892610175)]

  lemma FactorTrail3()
    ensures Trail(FACTOR, 552689412041, FACTOR_TRAIL_3)
  {
    assert Step(5594472617641, 552689412041, 0, 1, 3, 4547743987999);
    assert Step(5594472617641, 552689412041, 3, 4547743987999, 14, 1052288259049);
    assert Step(5594472617641, 552689412041, 14, 1052288259049, 59, 5356572467510);
    assert Step(5594472617641, 552689412041, 59, 5356572467510, 239, 2357377625368);
    assert Step(5594472617641, 552689412041, 239, 2357377625368, 958, 5092139528736);
    assert Step(5594472617641, 552689412041, 958, 5092139528736, 3832, 4128103346875);
    assert Step(5594472617641, 552689412041, 3832, 4128103346875, 15331, 1346892610175);
  }

  lemma FactorPower3()
    ensures Leaves(FACTOR, 2625280440, 1346892610175)
  {
    FactorPower1();
    FactorTrail3();
    PowNext(0);
    TrailLeaves(FACTOR, 171240, 552689412041, FACTOR_TRAIL_3, 7);
  }

  const FACTOR_TRAIL_4: seq<(nat, nat)> := [(0, 1), (3, 4310060168790), (14, 5035417616346),
    (59, 4028508040078), (239, 3725946430659), (958, 4259618754810), (3832, 2013119279272), (15331, 1)]

  lemma FactorTrail4()
    ensures Trail(FACTOR, 1852426820963, FACTOR_TRAIL_4)
  {
    assert Step(5594472617641, 1852426820963, 0, 1, 3, 4310060168790);
    assert Step(5594472617641, 1852426820963, 3, 4310060168790, 14, 5035417616346);
    assert Step(5594472617641, 1852426820963, 14, 5035417616346, 59, 4028508040078);
    assert Step(5594472617641, 1852426820963, 59, 4028508040078, 239, 3725946430659);
    assert Step(5594472617641, 1852426820963, 239, 3725946430659, 958, 4259618754810);
    assert Step(5594472617641, 1852426820963, 958, 4259618754810, 3832, 2013119279272);
    assert Step(5594472617641, 1852426820963, 3832, 2013119279272, 15331, 1);
  }

  lemma FactorPower4()
    ensures Leaves(FACTOR, 5594472617640, 1)
  {
    FactorPower2();
    FactorTrail4();
    PowNext(0);
    TrailLeaves(FACTOR, 364912440, 1852426820963, FACTOR_TRAIL_4, 7);
  }

  lemma FactorIsPrime()
    ensures IsPrime(FACTOR)
  {
    SmallFactorsPrime();
    FactorPower2();
    FactorPower3();
    FactorPower4();
    assert Witness(FACTOR, 15331, 364912440, 1852426820963, 3161697676777);
    assert Witness(FACTOR, 2131, 2625280440, 1346892610175, 1933328135809);
    forall p: nat | IsPrime(p) && Divides(p, FACTOR) ensures 2365264 < p {
      FactorIsLarge(FACTOR, 15331, 364912440, 1852426820963, 3161697676777, p);
      FactorIsLarge(FACTOR, 2131, 2625280440, 1346892610175, 1933328135809, p);
      BothDivide(15331, 2131, p - 1);
    }
    LargeFactorsOnly(FACTOR, 2365264);
  }

  /** Powers of 2 modulo the limit. */
  const LIMIT_TRAIL_1: seq<(nat, nat)> := [(0, 1), (3, 8), (12, 4096), (50, 1125899906842624), (201, 105154048),
    (805, 7961574084174254208), (3220, 15207024341622358901), (12880, 3199590993540181000),
    (51520, 15945028504836738021), (206082, 1929396281097936233), (824329, 7387159903147361164),
    (3297316, 11493017446059487016)]

  lemma LimitTrail1()
    ensures Trail(LIMIT, 2, LIMIT_TRAIL_1)
  {
    assert Step(18446744073709551557, 2, 0, 1, 3, 8);
    assert Step(18446744073709551557, 2, 3, 8, 12, 4096);
    assert Step(18446744073709551557, 2, 12, 4096, 50, 1125899906842624);
    assert Step(18446744073709551557, 2, 50, 1125899906842624, 201, 105154048);
    assert Step(18446744073709551557, 2, 201, 105154048, 805, 7961574084174254208);
    assert Step(18446744073709551557, 2, 805, 7961574084174254208, 3220, 15207024341622358901);
    assert Step(18446744073709551557, 2, 3220, 15207024341622358901, 12880, 3199590993540181000);
    assert Step(18446744073709551557, 2, 12880, 3199590993540181000, 51520, 15945028504836738021);
    assert Step(18446744073709551557, 2, 51520, 15945028504836738021, 206082, 1929396281097936233);
    assert Step(18446744073709551557, 2, 206082, 1929396281097936233, 824329, 7387159903147361164);
    assert Step(18446744073709551557, 2, 824329, 7387159903147361164, 3297316, 11493017446059487016);
  }

  lemma LimitPower1()
    ensures Leaves(LIMIT, 3297316, 11493017446059487016)
  {
    LimitTrail1();
    PowNext(0);
    TrailLeaves(LIMIT, 1, 2, LIMIT_TRAIL_1, 11);
  }

  const LIMIT_TRAIL_2: seq<(nat, nat)> := [(0, 1), (1, 11493017446059487016), (5, 12603256085745122044),
    (20, 3445201699927199592), (81, 7267389047912579589), (325, 6769489354311130466),
    (1302, 16893664101364135094), (5210, 10751228489876979079), (20841, 6969370660485990036),
    (83364, 13582489635803617490), (333456, 17095689938516471399), (1333826, 8258455027259507795)]

  lemma LimitTrail2()
    ensures Trail(LIMIT, 11493017446059487016, LIMIT_TRAIL_2)
  {
    assert Step(18446744073709551557, 11493017446059487016, 0, 1, 1, 11493017446059487016);
    assert Step(18446744073709551557, 11493017446059487016, 1, 11493017446059487016, 5, 12603256085745122044);
    assert Step(18446744073709551557, 11493017446059487016, 5, 12603256085745122044, 20, 3445201699927199592);
    assert Step(18446744073709551557, 11493017446059487016, 20, 3445201699927199592, 81, 7267389047912579589);
    assert Step(18446744073709551557, 11493017446059487016, 81, 7267389047912579589, 325, 6769489354311130466);
    assert Step(18446744073709551557, 11493017446059487016, 325, 6769489354311130466, 1302, 16893664101364135094);
    assert Step(18446744073709551557, 11493017446059487016, 1302, 16893664101364135094, 5210, 10751228489876979079);
    assert Step(18446744073709551557, 11493017446059487016, 5210, 10751228489876979079, 20841, 6969370660485990036);
    assert Step(18446744073709551557, 11493017446059487016, 20841, 6969370660485990036, 83364, 13582489635803617490);
    assert Step(18446744073709551557, 11493017446059487016, 83364, 13582489635803617490, 333456, 17095689938516471399);
    assert Step(18446744073709551557, 11493017446059487016, 333456, 17095689938516471399, 1333826, 8258455027259507795);
  }

  lemma LimitPower2()
    ensures Leaves(LIMIT, 4398045811016, 8258455027259507795)
  {
    LimitPower1();
    LimitTrail2();
    PowNext(0);
    TrailLeaves(LIMIT, 3297316, 11493017446059487016, LIMIT_TRAIL_2, 11);
  }

  const LIMIT_TRAIL_3: seq<(nat, nat)> := [(1333826, 8258455027259507795), (5335304, 5996784432043270228),
    (21341219, 14264922066832602577), (85364877, 9424313153928960846), (341459510, 11958245662470757497),
    (1365838041, 1611602363253227516), (5463352165, 1006968241440882785), (21853408662, 13006730677682223898),
    (87413634650, 3960158840834210521), (349654538602, 7694063513458488491),
    (1398618154410, 2519434279401211148), (5594472617641, 1)]

  lemma LimitTrail3()
    ensures Trail(LIMIT, 11493017446059487016, LIMIT_TRAIL_3)
  {
    assert Step(18446744073709551557, 11493017446059487016, 1333826, 8258455027259507795, 5335304, 5996784432043270228);
    assert Step(18446744073709551557, 11493017446059487016, 5335304, 5996784432043270228, 21341219,
                14264922066832602577);
    assert Step(18446744073709551557, 11493017446059487016, 21341219, 14264922066832602577, 85364877,
                9424313153928960846);
    assert Step(18446744073709551557, 11493017446059487016, 85364877, 9424313153928960846, 341459510,
                11958245662470757497);
    assert Step(18446744073709551557, 11493017446059487016, 341459510, 11958245662470757497, 1365838041,
                1611602363253227516);
    assert Step(18446744073709551557, 11493017446059487016, 1365838041, 1611602363253227516, 5463352165,
                1006968241440882785);
    assert Step(18446744073709551557, 11493017446059487016, 5463352165, 1006968241440882785, 21853408662,
                13006730677682223898);
    assert Step(18446744073709551557, 11493017446059487016, 21853408662, 13006730677682223898, 87413634650,
                3960158840834210521);
    assert Step(18446744073709551557, 11493017446059487016, 87413634650, 3960158840834210521, 349654538602,
                7694063513458488491);
    assert Step(18446744073709551557, 11493017446059487016, 349654538602, 7694063513458488491, 1398618154410,
                2519434279401211148);
    assert Step(18446744073709551557, 11493017446059487016, 1398618154410, 2519434279401211148, 5594472617641, 1);
  }

  lemma LimitPower3()
    ensures Leaves(LIMIT, 18446744073709551556, 1)
  {
    LimitPower1();
    LimitPower2();
    LimitTrail3();
    PowNext(0);
    TrailLeaves(LIMIT, 3297316, 11493017446059487016, LIMIT_TRAIL_3, 11);
  }

  /** The limit is a prime number. */
  lemma LimitIsPrime()
    ensures IsPrime(LIMIT)
  {
    FactorIsPrime();
    LimitPower1();
    LimitPower3();
    assert Witness(LIMIT, FACTOR, 3297316, 11493017446059487016, 1898613474652435203);
    forall p: nat | IsPrime(p) && Divides(p, LIMIT) ensures 4294967296 < p {
      FactorIsLarge(LIMIT, FACTOR, 3297316, 11493017446059487016, 1898613474652435203, p);
      Largest(FACTOR, p - 1);
    }
    LargeFactorsOnly(LIMIT, 4294967296);
  }

  /** A proper factor of each number above the limit. */
  function FactorOf(n: nat): nat {
    if n % 2 == 0 then 2 else if n % 3 == 0 then 3 else if n % 5 == 0 then 5 else if n % 7 == 0 then 7
    else if n % 11 == 0 then 11 else if n % 13 == 0 then 13 else if n % 17 == 0 then 17 else if n % 19 == 0 then 19
    else if n % 29 == 0 then 29 else if n % 31 == 0 then 31 else if n % 41 == 0 then 41 else if n % 53 == 0 then 53
    else if n % 827 == 0 then 827 else if n % 11071 == 0 then 11071 else 139646831
  }

  predicate AllHaveFactors(low: nat, high: nat)
    decreases high - low as int
  {
    low >= high || (low % FactorOf(low) == 0 && AllHaveFactors(low + 1, high))
  }

  lemma {:induction false} NonePrime(low: nat, high: nat)
    requires AllHaveFactors(low, high) && low > 1000000000
    ensures NoPrimeIn(low, high)
    decreases high - low as int
  {
    if low < high {
      NonePrime(low + 1, high);
      assert Divides(FactorOf(low), low);
    }
  }

  /** It is the largest that fits in 64 bits. */
  lemma NoneAboveLimit()
    ensures NoPrimeIn(LIMIT + 1, TWO_TO_THE_64)
  {
    NonePrime(18446744073709551558, 18446744073709551568);
    NonePrime(18446744073709551568, 18446744073709551578);
    NonePrime(18446744073709551578, 18446744073709551588);
    NonePrime(18446744073709551588, 18446744073709551598);
    NonePrime(18446744073709551598, 18446744073709551608);
    NonePrime(18446744073709551608, 18446744073709551616);
  }
}
