/** Finite sums over sequences, and the facts about products, finite sets and sequences
    that several of the other modules need. */
module Sums {

  lemma MultiplesOrdered(a: nat, x: int, y: int)
    ensures x <= y ==> x * a <= y * a
  {}

  lemma Distributes(a: int, b: int, w: int)
    ensures (a + b) * w == a * w + b * w
    ensures (a - b) * w == a * w - b * w
  {}

  lemma SubsetSize<T>(a: set<T>, b: set<T>)
    requires a <= b
    ensures |a| <= |b|
  {
    assert b == a + (b - a);
  }

  /** s without its element at i, whose place the last one takes. */
  function SwapRemove<T>(s: seq<T>, i: nat): seq<T>
    requires i < |s|
  {
    s[i := s[|s| - 1]][|s| - 1 := s[i]][..|s| - 1]
  }

  function Zeros(n: nat): seq<int> {
    seq(n, _ => 0)
  }

  /** The sum of all elements of s. */
  function Sum(s: seq<int>): int {
    if s == [] then 0 else Sum(s[..|s| - 1]) + s[|s| - 1]
  }

  lemma SumSnoc(s: seq<int>, x: int)
    ensures Sum(s + [x]) == Sum(s) + x
  {
    assert (s + [x])[..|s|] == s;
  }

  lemma SumPrefix(s: seq<int>, n: nat)
    requires n < |s|
    ensures Sum(s[..n + 1]) == Sum(s[..n]) + s[n]
  {
    assert s[..n + 1] == s[..n] + [s[n]];
  }

  lemma {:induction false} SumConcat(s: seq<int>, t: seq<int>)
    ensures Sum(s + t) == Sum(s) + Sum(t)
  {
    if t == [] {
      assert s + t == s;
    } else {
      var t' := t[..|t| - 1];
      SumConcat(s, t');
      assert s + t == (s + t') + [t[|t| - 1]];
      SumSnoc(s + t', t[|t| - 1]);
    }
  }

  lemma {:induction false} SumUpdate(s: seq<int>, i: nat, x: int)
    requires i < |s|
    ensures Sum(s[i := x]) == Sum(s) - s[i] + x
  {
    var n := |s| - 1;
    if i == n {
      assert s[i := x][..n] == s[..n];
    } else {
      assert s[i := x][..n] == s[..n][i := x];
      SumUpdate(s[..n], i, x);
    }
  }

  /** Sums are additive in their summands. */
  lemma {:induction false} SumAdd(s: seq<int>, t: seq<int>, r: seq<int>)
    requires |s| == |t| == |r|
    requires forall i | 0 <= i < |s| :: r[i] == s[i] + t[i]
    ensures Sum(r) == Sum(s) + Sum(t)
  {
    if s != [] {
      var n := |s| - 1;
      SumAdd(s[..n], t[..n], r[..n]);
    }
  }

  lemma {:induction false} SumMonotone(s: seq<int>, t: seq<int>)
    requires |s| == |t|
    requires forall i | 0 <= i < |s| :: s[i] <= t[i]
    ensures Sum(s) <= Sum(t)
  {
    if s != [] {
      var n := |s| - 1;
      SumMonotone(s[..n], t[..n]);
    }
  }

  lemma {:induction false} SumConstant(s: seq<int>, c: int)
    requires forall i | 0 <= i < |s| :: s[i] == c
    ensures Sum(s) == |s| * c
  {
    if s != [] {
      SumConstant(s[..|s| - 1], c);
    }
  }

  function Column(m: seq<seq<int>>, j: nat): seq<int>
    requires forall e | 0 <= e < |m| :: j < |m[e]|
  {
    seq(|m|, e requires 0 <= e < |m| => m[e][j])
  }

  function RowSums(m: seq<seq<int>>): seq<int> {
    seq(|m|, e requires 0 <= e < |m| => Sum(m[e]))
  }

  function ColumnSums(m: seq<seq<int>>, k: nat): seq<int>
    requires forall e | 0 <= e < |m| :: |m[e]| == k
  {
    seq(k, j requires 0 <= j < k => Sum(Column(m, j)))
  }

  /** Adding up a matrix by columns or by rows. */
  lemma {:induction false} SumColumns(m: seq<seq<int>>, k: nat)
    requires forall e | 0 <= e < |m| :: |m[e]| == k
    ensures Sum(ColumnSums(m, k)) == Sum(RowSums(m))
  {
    if m == [] {
      SumConstant(ColumnSums(m, k), 0);
    } else {
      var n := |m| - 1;
      SumColumns(m[..n], k);
      OneMoreRow(m, k);
      assert RowSums(m)[..n] == RowSums(m[..n]);
    }
  }

  lemma OneMoreRow(m: seq<seq<int>>, k: nat)
    requires m != [] && forall e | 0 <= e < |m| :: |m[e]| == k
    ensures Sum(ColumnSums(m, k)) == Sum(ColumnSums(m[..|m| - 1], k)) + Sum(m[|m| - 1])
  {
    var n := |m| - 1;
    forall j | 0 <= j < k ensures Sum(Column(m, j)) == Sum(Column(m[..n], j)) + m[n][j] {
      assert Column(m, j)[..n] == Column(m[..n], j);
    }
    SumAdd(ColumnSums(m[..n], k), m[n], ColumnSums(m, k));
  }

  /** e at each index in xs, 0 elsewhere. */
  function Indicator(n: nat, xs: set<nat>, e: int): seq<int> {
    seq(n, i requires 0 <= i < n => if i in xs then e else 0)
  }

  lemma {:induction false} SumIndicator(n: nat, xs: set<nat>, e: int)
    ensures Sum(Indicator(n, xs, e)) == e * |set i: nat | i < n && i in xs|
  {
    var below := set i: nat | i < n && i in xs;
    if n == 0 {
      assert below == {};
    } else {
      SumIndicator(n - 1, xs, e);
      var rest := set i: nat | i < n - 1 && i in xs;
      assert Indicator(n, xs, e)[..n - 1] == Indicator(n - 1, xs, e);
      if n - 1 in xs {
        assert below == rest + {n - 1};
        OneMoreTimes(e, |rest|);
      } else {
        assert below == rest;
      }
    }
  }

  lemma OneMoreTimes(e: int, n: nat)
    ensures e * (n + 1) == e * n + e
  {}

  /** The elements of s at the indices in p, in the order of p. */
  function Select(s: seq<int>, p: seq<nat>): seq<int>
    requires forall a | 0 <= a < |p| :: p[a] < |s|
  {
    seq(|p|, a requires 0 <= a < |p| => s[p[a]])
  }

  /** s with 0 at every index that p does not mention. */
  function Masked(s: seq<int>, p: seq<nat>): seq<int> {
    seq(|s|, i requires 0 <= i < |s| => if i in p then s[i] else 0)
  }

  lemma {:induction false} SumSelect(s: seq<int>, p: seq<nat>)
    requires forall a | 0 <= a < |p| :: p[a] < |s|
    requires forall a, b | 0 <= a < b < |p| :: p[a] != p[b]
    ensures Sum(Select(s, p)) == Sum(Masked(s, p))
  {
    if p == [] {
      SumConstant(Masked(s, p), 0);
    } else {
      var q, x := p[..|p| - 1], p[|p| - 1];
      SumSelect(s, q);
      assert Select(s, p) == Select(s, q) + [s[x]];
      SumSnoc(Select(s, q), s[x]);
      assert x !in q && p == q + [x];
      assert Masked(s, p) == Masked(s, q)[x := s[x]];
      SumUpdate(Masked(s, q), x, s[x]);
    }
  }

  /** A duplicate-free sequence of all n numbers below n mentions each of them. */
  lemma {:induction false} Pigeonhole(p: seq<nat>, n: nat, i: nat)
    requires |p| == n && i < n
    requires forall a | 0 <= a < |p| :: p[a] < n
    requires forall a, b | 0 <= a < b < |p| :: p[a] != p[b]
    ensures i in p
  {
    if i !in p {
      DistinctSize(p);
      var others := Elements(p) + {i};
      BoundedSetSize(others, n);
    }
  }

  /** Rearranging the summands does not change the sum. */
  lemma PermutedSum(s: seq<int>, p: seq<nat>)
    requires |p| == |s|
    requires forall a | 0 <= a < |p| :: p[a] < |s|
    requires forall a, b | 0 <= a < b < |p| :: p[a] != p[b]
    ensures Sum(Select(s, p)) == Sum(s)
  {
    SumSelect(s, p);
    forall i | 0 <= i < |s| ensures i in p {
      Pigeonhole(p, |s|, i);
    }
    assert Masked(s, p) == s;
  }

  /** Two summands that change without their sum changing. */
  lemma SumShifted(s: seq<int>, t: seq<int>, i: nat, j: nat)
    requires |s| == |t| && i < |s| && j < |s| && i != j && t[i] + t[j] == s[i] + s[j]
    requires forall a | 0 <= a < |s| && a != i && a != j :: t[a] == s[a]
    ensures Sum(t) == Sum(s)
  {
    SumUpdate(s, i, t[i]);
    SumUpdate(s[i := t[i]], j, t[j]);
    assert t == s[i := t[i]][j := t[j]];
  }

  /** A sum of non-negative numbers is at least any two of them together. */
  lemma {:induction false} SumAtLeastTwo(s: seq<int>, i: nat, j: nat)
    requires i < |s| && j < |s| && i != j
    requires forall a | 0 <= a < |s| :: 0 <= s[a]
    ensures s[i] + s[j] <= Sum(s)
  {
    SumUpdate(s, i, 0);
    var s1 := s[i := 0];
    SumUpdate(s1, j, 0);
    var s2 := s1[j := 0];
    SumMonotone(seq(|s|, _ => 0), s2);
    SumConstant(seq(|s|, _ => 0), 0);
  }

  lemma {:induction false} SumAtLeastOne(s: seq<int>, i: nat)
    requires i < |s|
    requires forall a | 0 <= a < |s| :: 0 <= s[a]
    ensures s[i] <= Sum(s)
  {
    SumUpdate(s, i, 0);
    SumMonotone(seq(|s|, _ => 0), s[i := 0]);
    SumConstant(seq(|s|, _ => 0), 0);
  }

  /** A positive sum has a positive summand. */
  lemma {:induction false} PositiveSummand(s: seq<int>) returns (i: nat)
    requires 0 < Sum(s)
    ensures i < |s| && 0 < s[i]
  {
    if 0 < s[|s| - 1] {
      i := |s| - 1;
    } else {
      i := PositiveSummand(s[..|s| - 1]);
    }
  }

  /** An injection from a finite set into another shows it to be no larger. */
  lemma {:induction false} InjectionBound<A(!new), B>(xs: set<A>, ys: set<B>, f: A -> B)
    requires forall x | x in xs :: f(x) in ys
    requires forall x, x' | x in xs && x' in xs && f(x) == f(x') :: x == x'
    ensures |xs| <= |ys|
    decreases xs
  {
    if x :| x in xs {
      InjectionBound(xs - {x}, ys - {f(x)}, f);
    }
  }

  /** A set of numbers below n has at most n elements. */
  lemma {:induction false} BoundedSetSize(s: set<nat>, n: nat)
    requires forall x | x in s :: x < n
    ensures |s| <= n
    decreases n
  {
    if n == 0 {
      assert s == {};
    } else {
      BoundedSetSize(s - {n - 1}, n - 1);
    }
  }

  /** The elements of a sequence, as a set. */
  ghost function Elements<T>(s: seq<T>): set<T> {
    set x | x in s
  }

  lemma {:induction false} ElementsBound<T>(s: seq<T>)
    ensures |Elements(s)| <= |s|
  {
    if s == [] {
      assert Elements(s) == {};
    } else {
      var n := |s| - 1;
      ElementsBound(s[..n]);
      assert Elements(s) == Elements(s[..n]) + {s[n]};
    }
  }

  /** The elements of a duplicate-free sequence are as many as its length. */
  lemma {:induction false} DistinctSize<T>(s: seq<T>)
    requires forall i, j | 0 <= i < j < |s| :: s[i] != s[j]
    ensures |Elements(s)| == |s|
  {
    if s == [] {
      assert Elements(s) == {};
    } else {
      var n := |s| - 1;
      DistinctSize(s[..n]);
      assert Elements(s) == Elements(s[..n]) + {s[n]};
    }
  }
}
