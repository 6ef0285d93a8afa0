/** Parallel nets: merging every net into the first one with the same pins. */
module ParallelNets {
  import opened Sums
  import opened NLevel
  import opened Partitions
  import opened Layout
  import opened PinCounts
  import opened Sizes
  import opened Uncontraction
  import opened Moves
  import opened HypergraphClass
  import Primes
  import opened Divisibility
  import opened LargestPrime

  // ---------------------------------------------------------- representatives

  /** The representative of every net is the first one with the same pins. */
  ghost predicate Represents(h: Hypergraph, reps: seq<nat>) {
    && |reps| == |h.nets|
    && (forall e {:trigger reps[e]} | 0 <= e < |reps| :: reps[e] <= e && h.nets[reps[e]].pins == h.nets[e].pins)
    && (forall d, e {:trigger reps[d], reps[e]} | 0 <= d <= e < |reps| && h.nets[d].pins == h.nets[e].pins ::
          reps[e] <= d)
  }

  lemma RepresentsItself(h: Hypergraph, reps: seq<nat>, e: nat)
    requires Represents(h, reps) && e < |reps|
    ensures reps[e] < |reps| && reps[reps[e]] == reps[e]
  {
    var r := reps[e];
    var d := reps[r];
    assert reps[d] <= d && h.nets[d].pins == h.nets[r].pins == h.nets[e].pins;
    assert reps[e] <= d;
  }

  /** All nets before number n that are not their own representatives have been merged
      into them. */
  function Merged(h: Hypergraph, reps: seq<nat>, n: nat): (h': Hypergraph)
    requires n <= |reps| == |h.nets| && forall e {:trigger reps[e]} | 0 <= e < |reps| :: reps[e] <= e
    ensures |h'.nodes| == |h.nodes| && |h'.nets| == |h.nets|
  {
    if n == 0 then h
    else if reps[n - 1] == n - 1 then Merged(h, reps, n - 1)
    else Merge(Merged(h, reps, n - 1), reps[n - 1], n - 1)
  }

  ghost predicate AllEnabled(h: Hypergraph) {
    forall e {:trigger h.nets[e].enabled} | 0 <= e < |h.nets| :: h.nets[e].enabled
  }

  /** What the nets are like in the middle: pins are untouched, and disabled are exactly
      those merged. */
  ghost predicate NetsMerged(h: Hypergraph, reps: seq<nat>, n: nat, m: Hypergraph)
    requires |reps| == |h.nets| == |m.nets|
  {
    forall e {:trigger m.nets[e]} | 0 <= e < |reps| ::
      && m.nets[e].pins == h.nets[e].pins
      && (m.nets[e].enabled <==> !(e < n && reps[e] != e))
      && (reps[e] != e ==> m.nets[e].weight == h.nets[e].weight)
  }

  lemma {:induction false} MergedNets(h: Hypergraph, reps: seq<nat>, n: nat)
    requires AllEnabled(h) && Represents(h, reps) && n <= |reps|
    ensures NetsMerged(h, reps, n, Merged(h, reps, n))
  {
    if n == 0 {
      assert forall e | 0 <= e < |reps| :: h.nets[e].enabled;
    } else {
      MergedNets(h, reps, n - 1);
      RepresentsItself(h, reps, n - 1);
      var m, before := Merged(h, reps, n), Merged(h, reps, n - 1);
      forall e | 0 <= e < |m.nets|
        ensures m.nets[e].pins == h.nets[e].pins
        ensures m.nets[e].enabled <==> !(e < n && reps[e] != e)
        ensures reps[e] != e ==> m.nets[e].weight == h.nets[e].weight
      {
        assert before.nets[e].pins == h.nets[e].pins;
      }
    }
  }

  lemma NextParallel(h: Hypergraph, reps: seq<nat>, n: nat)
    requires AllEnabled(h) && Represents(h, reps) && n < |reps| && reps[n] != n
    ensures Parallel(Merged(h, reps, n), reps[n], n)
  {
    MergedNets(h, reps, n);
    RepresentsItself(h, reps, n);
  }

  /** However far the merging has got, validity and both metrics of every partition are
      those of the original. */
  lemma {:induction false} MergedIsEquivalent(h: Hypergraph, reps: seq<nat>, n: nat, part: Partition)
    requires Valid(h) && AllEnabled(h) && Represents(h, reps) && n <= |reps|
    ensures Valid(Merged(h, reps, n))
    ensures Cut(Merged(h, reps, n), part) == Cut(h, part)
    ensures Km1(Merged(h, reps, n), part) == Km1(h, part)
  {
    if n > 0 {
      MergedIsEquivalent(h, reps, n - 1, part);
      if reps[n - 1] != n - 1 {
        NextParallel(h, reps, n - 1);
        MergeKeepsValid(Merged(h, reps, n - 1), reps[n - 1], n - 1);
        MergeKeepsMetrics(Merged(h, reps, n - 1), reps[n - 1], n - 1, part);
      }
    }
  }

  /** In the end the representative of every net is enabled, and has its pins. */
  lemma RepresentativeLeft(h: Hypergraph, reps: seq<nat>, e: nat)
    requires AllEnabled(h) && Represents(h, reps) && e < |reps|
    ensures var m := Merged(h, reps, |reps|);
            HasNet(m, reps[e]) && m.nets[reps[e]].pins == h.nets[e].pins
  {
    MergedNets(h, reps, |reps|);
    RepresentsItself(h, reps, e);
    assert h.nets[reps[e]].pins == h.nets[e].pins;
    assert Merged(h, reps, |reps|).nets[reps[e]].pins == h.nets[reps[e]].pins;
  }

  /** No two enabled nets have the same pins. */
  lemma NoParallelLeft(h: Hypergraph, reps: seq<nat>, d: nat, e: nat)
    requires AllEnabled(h) && Represents(h, reps)
    ensures !Parallel(Merged(h, reps, |reps|), d, e)
  {
    var m := Merged(h, reps, |reps|);
    MergedNets(h, reps, |reps|);
    if HasNet(m, d) && HasNet(m, e) && d != e {
      assert m.nets[d].pins == h.nets[d].pins && m.nets[e].pins == h.nets[e].pins;
      assert reps[d] == d && reps[e] == e;
    }
  }

  // ----------------------------------------------------------------- checksums

  /** One more than the largest number of the checksum type. */
  const SIZE: nat := 0x1_0000_0000_0000_0000

  /** The sum over all pins; nodes are numbered below n. */
  ghost function PinSum(cs2: nat -> nat, pins: set<nat>, n: nat): int {
    Sum(PinValues(cs2, pins, n))
  }

  ghost function PinValues(cs2: nat -> nat, pins: set<nat>, n: nat): seq<int> {
    seq(n, v requires 0 <= v < n => if v in pins then cs2(v) else 0)
  }

  lemma OneMorePin(cs2: nat -> nat, pins: set<nat>, n: nat, p: nat)
    requires p < n && p !in pins
    ensures PinSum(cs2, pins + {p}, n) == PinSum(cs2, pins, n) + cs2(p)
  {
    SumUpdate(PinValues(cs2, pins, n), p, cs2(p));
    assert PinValues(cs2, pins + {p}, n) == PinValues(cs2, pins, n)[p := cs2(p)];
  }

  lemma NoPins(cs2: nat -> nat, n: nat)
    ensures PinSum(cs2, {}, n) == 0
  {
    SumConstant(PinValues(cs2, {}, n), 0);
  }

  lemma PinSumNonNegative(cs2: nat -> nat, pins: set<nat>, n: nat)
    ensures 0 <= PinSum(cs2, pins, n)
  {
    SumConstant(seq(n, _ => 0), 0);
    SumMonotone(seq(n, _ => 0), PinValues(cs2, pins, n));
  }

  lemma WrapsOnce(a: int, b: nat)
    requires 0 <= a
    ensures (a % SIZE + b) % SIZE == (a + b) % SIZE
  {}

  lemma ChecksumStep(cs2: nat -> nat, pins: set<nat>, n: nat, p: nat, checksum: nat)
    requires p < n && p !in pins && checksum == (SIZE - 1 + PinSum(cs2, pins, n)) % SIZE
    ensures (checksum + cs2(p)) % SIZE == (SIZE - 1 + PinSum(cs2, pins + {p}, n)) % SIZE
  {
    OneMorePin(cs2, pins, n, p);
    PinSumNonNegative(cs2, pins, n);
    WrapsOnce(SIZE - 1 + PinSum(cs2, pins, n), cs2(p));
  }

  /** The checksum depends on nothing but the set of pins. */
  ghost function ChecksumOf(cs2: nat -> nat, pins: set<nat>, n: nat, prime: nat): nat
    requires prime > 0
  {
    ((SIZE - 1 + PinSum(cs2, pins, n)) % SIZE) % prime
  }

  /** The checksum of a net: it starts from the largest number, and wraps around. */
  method Checksum(g: GenericHypergraph, he: nat, cs2: nat -> nat, prime: nat) returns (checksum: nat)
    requires g.Rep() && he < |g.rows| && prime > 0
    ensures checksum == ChecksumOf(cs2, g.Abs().nets[he].pins, |g.hypernodes|, prime)
    ensures checksum < prime
  {
    checksum := SIZE - 1;
    g.AllPins(he);
    NoPins(cs2, |g.hypernodes|);
    for slot := g.hyperedges[he].begin to g.hyperedges[he].FirstInvalidEntry()
      invariant checksum == (SIZE - 1 + PinSum(cs2, g.PinsBefore(he, slot), |g.hypernodes|)) % SIZE
    {
      g.NextPin(he, slot);
      ChecksumStep(cs2, g.PinsBefore(he, slot), |g.hypernodes|, g.incidence[slot], checksum);
      checksum := (checksum + cs2(g.incidence[slot])) % SIZE;
    }
    checksum := checksum % prime;
  }

  lemma SameSizeSubset<T>(a: set<T>, b: set<T>)
    requires a <= b && |a| == |b|
    ensures a == b
  {
    assert b == a + (b - a);
  }

  /** Do the nets have the same pins? */
  method IsParallel(g: GenericHypergraph, representative: nat, he: nat) returns (isParallel: bool)
    requires g.Rep() && representative < |g.rows| && he < |g.rows|
    ensures isParallel <==> g.Abs().nets[representative].pins == g.Abs().nets[he].pins
  {
    g.SizeOfNet(representative);
    g.SizeOfNet(he);
    g.AllPins(representative);
    g.AllPins(he);
    if g.hyperedges[representative].size != g.hyperedges[he].size {
      return false;
    }
    var contained := MarkPins(g, representative);
    for slot := g.hyperedges[he].begin to g.hyperedges[he].FirstInvalidEntry()
      invariant g.PinsBefore(he, slot) <= g.Abs().nets[representative].pins
    {
      g.NextPin(he, slot);
      if !contained[g.incidence[slot]] {
        return false;
      }
    }
    SameSizeSubset(g.Abs().nets[he].pins, g.Abs().nets[representative].pins);
    return true;
  }

  /** Marks the pins of a net. */
  method MarkPins(g: GenericHypergraph, he: nat) returns (contained: seq<bool>)
    requires g.Rep() && he < |g.rows|
    ensures |contained| == |g.hypernodes|
    ensures forall v {:trigger contained[v]} | 0 <= v < |contained| :: contained[v] <==> v in g.Abs().nets[he].pins
  {
    contained := seq(|g.hypernodes|, _ => false);
    g.AllPins(he);
    for slot := g.hyperedges[he].begin to g.hyperedges[he].FirstInvalidEntry()
      invariant |contained| == |g.hypernodes|
      invariant forall v {:trigger contained[v]} | 0 <= v < |contained| :: contained[v] <==> v in g.PinsBefore(he, slot)
    {
      g.NextPin(he, slot);
      contained := contained[g.incidence[slot] := true];
    }
  }

  // ------------------------------------------------------------------ chaining

  const NONE: int := -1

  /** Nets with the same pins have the same checksum, which is below prime. */
  ghost predicate Hashed(h: Hypergraph, checksums: seq<nat>, prime: nat) {
    && |checksums| == |h.nets|
    && (forall e {:trigger checksums[e]} | 0 <= e < |checksums| :: checksums[e] < prime)
    && (forall d, e {:trigger checksums[d], checksums[e]} | 0 <= d < |checksums| && 0 <= e < |checksums|
        && h.nets[d].pins == h.nets[e].pins ::
          checksums[d] == checksums[e])
  }

  /** first and next link the chains, one for each checksum. */
  ghost predicate Linked(first: seq<int>, next: seq<int>, chains: seq<seq<nat>>) {
    && |first| == |chains|
    && (forall s {:trigger chains[s]} | 0 <= s < |chains| :: first[s] == if chains[s] == [] then NONE else chains[s][0])
    && (forall s, i {:trigger chains[s][i]} | 0 <= s < |chains| && 0 <= i < |chains[s]| ::
          && chains[s][i] < |next|
          && next[chains[s][i]] == if i + 1 < |chains[s]| then chains[s][i + 1] else NONE)
  }

  /** Every net below n that is on a chain is on that of its checksum, once. */
  ghost predicate Placed(checksums: seq<nat>, chains: seq<seq<nat>>, n: nat) {
    && n <= |checksums|
    && (forall s, i {:trigger chains[s][i]} | 0 <= s < |chains| && 0 <= i < |chains[s]| ::
          chains[s][i] < n && checksums[chains[s][i]] == s)
    && (forall s, i, j {:trigger chains[s][i], chains[s][j]} | 0 <= s < |chains| && 0 <= i < j < |chains[s]| ::
          chains[s][i] < chains[s][j])
  }

  /** The chains hold the first nets so far of their kind; the nets before n have got
      their representatives, each the first one with the same pins. */
  ghost predicate Chained(h: Hypergraph, checksums: seq<nat>, chains: seq<seq<nat>>, reps: seq<int>, n: nat) {
    && n <= |reps| == |h.nets| == |checksums|
    && Placed(checksums, chains, n)
    && (forall s, i {:trigger chains[s][i]} | 0 <= s < |chains| && 0 <= i < |chains[s]| ::
          reps[chains[s][i]] == chains[s][i])
    && (forall e {:trigger reps[e]} | 0 <= e < n ::
          && 0 <= reps[e] <= e && h.nets[reps[e]].pins == h.nets[e].pins
          && checksums[e] < |chains| && reps[e] in chains[checksums[e]])
    && (forall d, e {:trigger reps[d], reps[e]} | 0 <= d <= e < n && h.nets[d].pins == h.nets[e].pins :: reps[e] <= d)
  }

  /** The net on the chain that has the pins of net n, if there is one, is the first one. */
  lemma FoundIsFirst(h: Hypergraph, checksums: seq<nat>, prime: nat, chains: seq<seq<nat>>, reps: seq<int>, n: nat,
                     i: nat, d: nat)
    requires Hashed(h, checksums, prime) && Chained(h, checksums, chains, reps, n) && n < |reps|
    requires checksums[n] < |chains| && i < |chains[checksums[n]]|
    requires h.nets[chains[checksums[n]][i]].pins == h.nets[n].pins
    requires d < n && h.nets[d].pins == h.nets[n].pins
    ensures chains[checksums[n]][i] <= d
  {
    var c := chains[checksums[n]][i];
    assert c < n && reps[c] == c;
    var r := reps[d];
    assert 0 <= r <= d && h.nets[r].pins == h.nets[d].pins;
    assert reps[r] <= r;
  }

  lemma NetFound(h: Hypergraph, checksums: seq<nat>, prime: nat, chains: seq<seq<nat>>, reps: seq<int>, n: nat, i: nat)
    requires Hashed(h, checksums, prime) && Chained(h, checksums, chains, reps, n) && n < |reps|
    requires checksums[n] < |chains| && i < |chains[checksums[n]]|
    requires h.nets[chains[checksums[n]][i]].pins == h.nets[n].pins
    ensures Chained(h, checksums, chains, reps[n := chains[checksums[n]][i]], n + 1)
  {
    var c := chains[checksums[n]][i];
    assert c < n && reps[c] == c && c in chains[checksums[n]];
    forall d: nat | d < n && h.nets[d].pins == h.nets[n].pins ensures c <= d {
      FoundIsFirst(h, checksums, prime, chains, reps, n, i, d);
    }
    var reps' := reps[n := c];
    forall e | 0 <= e < n + 1
      ensures 0 <= reps'[e] <= e && h.nets[reps'[e]].pins == h.nets[e].pins
      ensures checksums[e] < |chains| && reps'[e] in chains[checksums[e]]
    {
      assert e < n ==> reps[e] <= e;
    }
    forall d, e | 0 <= d <= e < n + 1 && h.nets[d].pins == h.nets[e].pins ensures reps'[e] <= d {
      if e < n {
        assert reps[d] <= d && reps[e] <= e;
      }
    }
  }

  lemma NetNotFound(h: Hypergraph, checksums: seq<nat>, prime: nat, chains: seq<seq<nat>>, reps: seq<int>, n: nat)
    requires Hashed(h, checksums, prime) && Chained(h, checksums, chains, reps, n) && n < |reps|
    requires checksums[n] < |chains|
    requires forall i {:trigger chains[checksums[n]][i]} | 0 <= i < |chains[checksums[n]]| ::
               h.nets[chains[checksums[n]][i]].pins != h.nets[n].pins
    ensures Chained(h, checksums, chains[checksums[n] := chains[checksums[n]] + [n]], reps[n := n], n + 1)
  {
    var s := checksums[n];
    var chains' := chains[s := chains[s] + [n]];
    forall d | 0 <= d < n
      ensures h.nets[d].pins != h.nets[n].pins
      ensures checksums[d] < |chains'| && reps[d] in chains'[checksums[d]]
    {
      assert reps[d] in chains[checksums[d]];
      var i :| 0 <= i < |chains[checksums[d]]| && chains[checksums[d]][i] == reps[d];
      assert chains'[checksums[d]][i] == reps[d];
      var ofD, ofN := checksums[d], checksums[n];
      assert h.nets[d].pins == h.nets[n].pins ==> ofD == ofN;
    }
    assert chains'[s][|chains[s]|] == n;
  }

  /** Linking net n to the end of chain s. */
  lemma LinkedNext(checksums: seq<nat>, first: seq<int>, next: seq<int>, chains: seq<seq<nat>>, s: nat, n: nat)
    requires Linked(first, next, chains) && Placed(checksums, chains, n) && s < |chains| && n < |next|
             && next[n] == NONE
    ensures chains[s] == [] ==> Linked(first[s := n], next, chains[s := chains[s] + [n]])
    ensures chains[s] != [] ==> Linked(first, next[chains[s][|chains[s]| - 1] := n], chains[s := chains[s] + [n]])
  {
    var chains' := chains[s := chains[s] + [n]];
    if chains[s] != [] {
      var last := chains[s][|chains[s]| - 1];
      assert last < n && checksums[last] == s;
      var next' := next[last := n];
      forall t, i {:trigger chains'[t][i]} | 0 <= t < |chains'| && 0 <= i < |chains'[t]|
        ensures chains'[t][i] < |next'|
                && next'[chains'[t][i]] == if i + 1 < |chains'[t]| then chains'[t][i + 1] else NONE
      {
        if t != s {
          assert chains'[t][i] == chains[t][i] && checksums[chains[t][i]] == t;
        } else if i < |chains[s]| {
          assert chains'[t][i] == chains[s][i];
          assert i < |chains[s]| - 1 ==> chains[s][i] < last;
        }
      }
    }
  }

  /** The nets before number n have been given their representatives, and the chains are
      linked accordingly. */
  ghost predicate Classified(h: Hypergraph, checksums: seq<nat>, prime: nat, first: seq<int>, next: seq<int>,
                             reps: seq<int>, chains: seq<seq<nat>>, n: nat) {
    && Hashed(h, checksums, prime)
    && |chains| == prime && |next| == |h.nets| && Linked(first, next, chains)
    && Chained(h, checksums, chains, reps, n)
    && forall e {:trigger next[e]} | n <= e < |next| :: next[e] == NONE
  }

  lemma ChainOver(next: seq<int>, chain: seq<nat>, i: nat)
    requires i < |chain| && chain[i] < |next|
    requires next[chain[i]] == if i + 1 < |chain| then chain[i + 1] else NONE
    ensures next[chain[i]] == NONE ==> i == |chain| - 1
  {}

  /** Follows a chain from its first net on. Returns a parallel net, or else the last one. */
  method FollowChain(g: GenericHypergraph, he: nat, start: int, next: seq<int>, reps: seq<int>, ghost chain: seq<nat>)
    returns (found: bool, c: nat, ghost i: nat)
    requires g.Rep() && he < |g.rows| && |reps| == |g.rows|
    requires chain != [] && start == chain[0]
    requires forall j {:trigger chain[j]} | 0 <= j < |chain| ::
               && chain[j] < |next| && chain[j] < |reps| && reps[chain[j]] == chain[j]
               && next[chain[j]] == if j + 1 < |chain| then chain[j + 1] else NONE
    ensures i < |chain| && c == chain[i]
    ensures found ==> g.Abs().nets[c].pins == g.Abs().nets[he].pins
    ensures !found ==> i == |chain| - 1
    ensures !found ==> forall j {:trigger chain[j]} | 0 <= j < |chain| ::
              g.Abs().nets[chain[j]].pins != g.Abs().nets[he].pins
  {
    c, i := start, 0;
    while true
      invariant i < |chain| && c == chain[i]
      invariant forall j {:trigger chain[j]} | 0 <= j < i :: g.Abs().nets[chain[j]].pins != g.Abs().nets[he].pins
      decreases |chain| - i
    {
      found := IsParallel(g, reps[c], he);
      if found || next[c] == NONE {
        ChainOver(next, chain, i);
        return;
      }
      c := next[c];
      i := i + 1;
    }
  }

  /** Gives a net its representative: the parallel net on its chain, if there is one;
      otherwise the net itself, which is appended to the chain. */
  method FindRepresentative(g: GenericHypergraph, he: nat, checksums: seq<nat>, first: seq<int>, next: seq<int>,
                            reps: seq<int>, ghost prime: nat, ghost chains: seq<seq<nat>>)
    returns (first': seq<int>, next': seq<int>, reps': seq<int>, ghost chains': seq<seq<nat>>)
    requires g.Rep() && he < |g.rows| && Classified(g.Abs(), checksums, prime, first, next, reps, chains, he)
    ensures Classified(g.Abs(), checksums, prime, first', next', reps', chains', he + 1)
  {
    ghost var s := checksums[he];
    first', next', reps', chains' := first, next, reps, chains;
    assert first[s] == if chains[s] == [] then NONE else chains[s][0];
    if first[checksums[he]] == NONE {
      EmptyChain(g.Abs(), checksums, prime, first, next, reps, chains, he);
      first' := first[checksums[he] := he];
      reps' := reps[he := he];
      chains' := chains[s := chains[s] + [he]];
      return;
    }
    ChainReady(g.Abs(), checksums, prime, first, next, reps, chains, he);
    var found, c, i := FollowChain(g, he, first[checksums[he]], next, reps, chains[s]);
    if found {
      NetFound(g.Abs(), checksums, prime, chains, reps, he, i);
      reps' := reps[he := c];
    } else {
      ChainEnds(g.Abs(), checksums, prime, first, next, reps, chains, he);
      next' := next[c := he];
      reps' := reps[he := he];
      chains' := chains[s := chains[s] + [he]];
    }
  }

  lemma ChainReady(h: Hypergraph, checksums: seq<nat>, prime: nat, first: seq<int>, next: seq<int>, reps: seq<int>,
                   chains: seq<seq<nat>>, n: nat)
    requires Classified(h, checksums, prime, first, next, reps, chains, n) && n < |h.nets|
    ensures checksums[n] < |chains|
    ensures var chain := chains[checksums[n]];
            forall j {:trigger chain[j]} | 0 <= j < |chain| ::
              && chain[j] < |next| && chain[j] < |reps| && reps[chain[j]] == chain[j]
              && next[chain[j]] == if j + 1 < |chain| then chain[j + 1] else NONE
  {
    var s := checksums[n];
    assert s < prime;
    forall j | 0 <= j < |chains[s]|
      ensures chains[s][j] < |next| && chains[s][j] < |reps| && reps[chains[s][j]] == chains[s][j]
      ensures next[chains[s][j]] == if j + 1 < |chains[s]| then chains[s][j + 1] else NONE
    {
      var c := chains[s][j];
    }
  }

  lemma EmptyChain(h: Hypergraph, checksums: seq<nat>, prime: nat, first: seq<int>, next: seq<int>, reps: seq<int>,
                   chains: seq<seq<nat>>, n: nat)
    requires Classified(h, checksums, prime, first, next, reps, chains, n) && n < |h.nets|
    requires checksums[n] < |chains| && chains[checksums[n]] == []
    ensures var s := checksums[n];
            Classified(h, checksums, prime, first[s := n], next, reps[n := n], chains[s := chains[s] + [n]], n + 1)
  {
    LinkedNext(checksums, first, next, chains, checksums[n], n);
    NetNotFound(h, checksums, prime, chains, reps, n);
  }

  lemma ChainEnds(h: Hypergraph, checksums: seq<nat>, prime: nat, first: seq<int>, next: seq<int>, reps: seq<int>,
                  chains: seq<seq<nat>>, n: nat)
    requires Classified(h, checksums, prime, first, next, reps, chains, n) && n < |h.nets|
    requires checksums[n] < |chains| && chains[checksums[n]] != []
    requires forall i {:trigger chains[checksums[n]][i]} | 0 <= i < |chains[checksums[n]]| ::
               h.nets[chains[checksums[n]][i]].pins != h.nets[n].pins
    ensures var s := checksums[n];
            && chains[s][|chains[s]| - 1] < n
            && Classified(h, checksums, prime, first, next[chains[s][|chains[s]| - 1] := n], reps[n := n],
                          chains[s := chains[s] + [n]], n + 1)
  {
    var s := checksums[n];
    assert chains[s][|chains[s]| - 1] < n;
    LinkedNext(checksums, first, next, chains, s, n);
    NetNotFound(h, checksums, prime, chains, reps, n);
  }

  lemma NothingClassified(h: Hypergraph, checksums: seq<nat>, prime: nat, first: seq<int>, next: seq<int>,
                          reps: seq<int>, chains: seq<seq<nat>>)
    requires Hashed(h, checksums, prime) && |first| == |chains| == prime && |next| == |reps| == |h.nets|
    requires forall s {:trigger first[s]} | 0 <= s < prime :: first[s] == NONE
    requires forall s {:trigger chains[s]} | 0 <= s < prime :: chains[s] == []
    requires forall e {:trigger next[e]} | 0 <= e < |next| :: next[e] == NONE
    ensures Classified(h, checksums, prime, first, next, reps, chains, 0)
  {}

  /** The checksums of all nets. */
  method Checksums(g: GenericHypergraph, cs2: nat -> nat, prime: nat) returns (checksums: seq<nat>)
    requires g.Rep() && prime > 0
    ensures Hashed(g.Abs(), checksums, prime)
  {
    checksums := [];
    for he := 0 to |g.rows|
      invariant |checksums| == he
      invariant forall e {:trigger checksums[e]} | 0 <= e < he ::
                  checksums[e] < prime && checksums[e] == ChecksumOf(cs2, g.Abs().nets[e].pins, |g.hypernodes|, prime)
    {
      var checksum := Checksum(g, he, cs2, prime);
      checksums := checksums + [checksum];
    }
  }

  /** Chains all nets by their checksums. */
  method ChainNets(g: GenericHypergraph, checksums: seq<nat>, prime: nat)
    returns (reps: seq<int>, ghost chains: seq<seq<nat>>)
    requires g.Rep() && Hashed(g.Abs(), checksums, prime)
    ensures |reps| == |g.rows| && Chained(g.Abs(), checksums, chains, reps, |g.rows|)
  {
    var first, next := seq(prime, _ => NONE), seq(|g.rows|, _ => NONE);
    reps, chains := seq(|g.rows|, _ => NONE), seq(prime, _ => []);
    NothingClassified(g.Abs(), checksums, prime, first, next, reps, chains);
    for he := 0 to |g.rows|
      invariant Classified(g.Abs(), checksums, prime, first, next, reps, chains, he)
    {
      first, next, reps, chains := FindRepresentative(g, he, checksums, first, next, reps, prime, chains);
    }
  }

  /** The number of chains: a prime that is not less than the number of nets. */
  method NumberOfChains(n: nat) returns (prime: nat)
    requires 0 < n <= LIMIT
    ensures n <= prime && IsPrime(prime)
  {
    var r := Primes.NextPrime(n);
    prime := r.value;
  }

  lemma ChainedRepresents(h: Hypergraph, checksums: seq<nat>, chains: seq<seq<nat>>, reps: seq<int>, ids: seq<nat>)
    requires |reps| == |h.nets| && Chained(h, checksums, chains, reps, |reps|)
    requires |ids| == |reps| && forall e {:trigger ids[e]} | 0 <= e < |ids| :: ids[e] == reps[e]
    ensures Represents(h, ids)
  {
    forall e | 0 <= e < |ids| ensures ids[e] <= e && h.nets[ids[e]].pins == h.nets[e].pins {
      assert reps[e] <= e;
    }
    forall d, e | 0 <= d <= e < |ids| && h.nets[d].pins == h.nets[e].pins ensures ids[e] <= d {
      assert reps[d] <= d && reps[e] <= d;
    }
  }

  /** Finds the representative of every net. */
  method FindRepresentatives(g: GenericHypergraph, cs2: nat -> nat) returns (representatives: seq<nat>)
    requires g.Rep() && |g.rows| <= LIMIT
    ensures Represents(g.Abs(), representatives)
  {
    if |g.rows| == 0 {
      return [];
    }
    var prime := NumberOfChains(|g.rows|);
    var checksums := Checksums(g, cs2, prime);
    var reps, chains := ChainNets(g, checksums, prime);
    RepsArePositive(g.Abs(), checksums, chains, reps);
    representatives := AsIds(reps);
    ChainedRepresents(g.Abs(), checksums, chains, reps, representatives);
  }

  lemma RepsArePositive(h: Hypergraph, checksums: seq<nat>, chains: seq<seq<nat>>, reps: seq<int>)
    requires |reps| == |h.nets| && Chained(h, checksums, chains, reps, |reps|)
    ensures forall e {:trigger reps[e]} | 0 <= e < |reps| :: 0 <= reps[e]
  {}

  function AsIds(reps: seq<int>): (ids: seq<nat>)
    requires forall e {:trigger reps[e]} | 0 <= e < |reps| :: 0 <= reps[e]
    ensures |ids| == |reps| && forall e {:trigger ids[e]} | 0 <= e < |ids| :: ids[e] == reps[e]
  {
    seq(|reps|, e requires 0 <= e < |reps| => reps[e])
  }

  // -------------------------------------------------------------- the operation

  lemma ReweighingKeepsSizes(h: Hypergraph, r: nat, weight: int)
    requires r < |h.nets|
    ensures NumPins(WithNetWeight(h, r, weight).nets) == NumPins(h.nets)
    ensures NumNets(WithNetWeight(h, r, weight).nets) == NumNets(h.nets)
  {
    NetChanged(h.nets, r, h.nets[r].(weight := weight));
  }

  /** Changes the weight of a net, which changes nothing else that is kept track of. */
  method Reweigh(g: GenericHypergraph, r: nat, weight: int)
    requires g.Rep() && g.CountsExact() && g.NumbersOf(g.Abs()) && Valid(g.Abs()) && r < |g.rows|
    modifies g`hyperedges
    ensures g.Rep() && g.CountsExact() && g.NumbersOf(g.Abs()) && Valid(g.Abs())
    ensures g.Abs() == WithNetWeight(old(g.Abs()), r, weight)
    ensures g.Part() == old(g.Part()) && g.Borders() == old(g.Borders())
  {
    ReweighingIsValid(g.Abs(), r, weight);
    ReweighingKeepsSizes(g.Abs(), r, weight);
    g.SetEdgeWeight(r, weight);
  }

  lemma MergeIs(h: Hypergraph, r: nat, e: nat, weight: int)
    requires r < |h.nets| && e < |h.nets| && weight == h.nets[r].weight + h.nets[e].weight
    ensures RemoveEdge(WithNetWeight(h, r, weight), e) == Merge(h, r, e)
  {}

  lemma UnmergeIs(h: Hypergraph, r: nat, e: nat, m: Hypergraph, weight: int)
    requires r < |h.nets| && e < |h.nets| && m == RestoreEdge(h, e) && weight == m.nets[r].weight - m.nets[e].weight
    ensures WithNetWeight(m, r, weight) == Unmerge(h, r, e)
  {}

  /** Merges net e into its representative r. */
  method MergeNet(g: GenericHypergraph, r: nat, e: nat)
    requires g.Rep() && g.CountsExact() && g.NumbersOf(g.Abs()) && Valid(g.Abs()) && Parallel(g.Abs(), r, e)
    modifies g`hypernodes, g`hyperedges, g`rows, g`currentNumHyperedges, g`currentNumPins
    ensures g.Rep() && g.CountsExact() && g.NumbersOf(g.Abs())
    ensures g.Abs() == Merge(old(g.Abs()), r, e)
    ensures g.Part() == old(g.Part()) && g.Borders() == old(g.Borders())
  {
    ghost var h := g.Abs();
    var weight := g.hyperedges[r].weight + g.hyperedges[e].weight;
    assert weight == h.nets[r].weight + h.nets[e].weight;
    ghost var merged := Merge(h, r, e);
    MergeIs(h, r, e, weight);
    Reweigh(g, r, weight);
    g.RemoveEdge(e);
    assert g.Abs() == merged;
  }

  lemma ReweighingKeepsBorders(h: Hypergraph, r: nat, weight: int, part: Partition, borders: seq<int>)
    requires r < |h.nets| && |borders| == |h.nodes|
    ensures BorderErrors(WithNetWeight(h, r, weight), part, borders) == BorderErrors(h, part, borders)
  {
    var w := WithNetWeight(h, r, weight);
    forall x | 0 <= x < |h.nodes| ensures BorderOf(w, part, x) == BorderOf(h, part, x) {
      assert CutNets(w, part, x) == CutNets(h, part, x);
    }
    assert BorderErrors(w, part, borders) == BorderErrors(h, part, borders);
  }

  /** A net that has been merged can be restored. */
  lemma MergedIsRestorable(h: Hypergraph, r: nat, e: nat)
    requires Valid(h) && Parallel(h, r, e)
    ensures var m := Merge(h, r, e);
            Valid(m) && Restorable(m, e) && HasNet(m, r) && m.nets[r].pins == m.nets[e].pins == h.nets[e].pins
  {
    MergeKeepsValid(h, r, e);
    var weight := h.nets[r].weight + h.nets[e].weight;
    ReweighingIsValid(h, r, weight);
    RemovedIsRestorable(WithNetWeight(h, r, weight), e);
  }

  /** Restores net e, which had been merged into net r, and takes its weight off r again. If
      its pins have blocks, the border counters stay as exact as they were. */
  method UnmergeNet(g: GenericHypergraph, r: nat, e: nat)
    requires g.Rep() && g.CountsExact() && g.NumbersOf(g.Abs()) && Valid(g.Abs()) && BlocksInRange(g.Part(), g.k)
    requires Restorable(g.Abs(), e) && HasNet(g.Abs(), r) && g.Abs().nets[r].pins == g.Abs().nets[e].pins
    modifies g`hypernodes, g`hyperedges, g`rows, g`currentNumHyperedges, g`currentNumPins
    ensures g.Rep() && g.CountsExact() && g.NumbersOf(g.Abs()) && Valid(g.Abs())
    ensures g.Abs() == Unmerge(old(g.Abs()), r, e) && g.Part() == old(g.Part())
    ensures Assigned(old(g.Abs()).nets[e].pins, g.Part(), g.k) ==>
              BorderErrors(g.Abs(), g.Part(), g.Borders()) == old(BorderErrors(g.Abs(), g.Part(), g.Borders()))
  {
    ghost var h, part, errors := g.Abs(), g.Part(), BorderErrors(g.Abs(), g.Part(), g.Borders());
    ghost var inBlocks := Assigned(h.nets[e].pins, part, g.k);
    if inBlocks {
      g.RepresentativeCut(e, r);
    }
    g.RestoreParallelEdge(e, r);
    ghost var m, borders := g.Abs(), g.Borders();
    assert m == RestoreEdge(h, e) && (inBlocks ==> BorderErrors(m, part, borders) == errors);
    var weight := g.hyperedges[r].weight - g.hyperedges[e].weight;
    assert weight == m.nets[r].weight - m.nets[e].weight;
    ReweighingKeepsBorders(m, r, weight, part, borders);
    UnmergeIs(h, r, e, m, weight);
    Reweigh(g, r, weight);
  }

  /** Merges the next net into its representative, if that is another one. */
  method MergeNext(g: GenericHypergraph, representatives: seq<nat>, e: nat, ghost h: Hypergraph) returns (merged: bool)
    requires Valid(h) && AllEnabled(h) && Represents(h, representatives) && e < |representatives|
    requires g.Rep() && g.CountsExact() && g.NumbersOf(g.Abs()) && g.Abs() == Merged(h, representatives, e)
    modifies g`hypernodes, g`hyperedges, g`rows, g`currentNumHyperedges, g`currentNumPins
    ensures g.Rep() && g.CountsExact() && g.NumbersOf(g.Abs())
    ensures g.Abs() == Merged(h, representatives, e + 1)
    ensures g.Part() == old(g.Part()) && g.Borders() == old(g.Borders())
    ensures merged <==> representatives[e] != e
  {
    merged := representatives[e] != e;
    if merged {
      NextParallel(h, representatives, e);
      MergedIsEquivalent(h, representatives, e, []);
      MergeNet(g, representatives[e], e);
    }
  }

  /** The nets before number n that are not their own representatives, each with its own. */
  function RemovedPairs(reps: seq<nat>, n: nat): seq<(nat, nat)>
    requires n <= |reps|
  {
    if n == 0 then []
    else
      var e: nat := n - 1;
      if reps[e] != e then RemovedPairs(reps, e) + [(e, reps[e])] else RemovedPairs(reps, e)
  }

  /** A list of removed nets, each with its representative, as a run of mergers. */
  function Mergers(removed: seq<(nat, nat)>): (run: seq<Step>)
    ensures |run| == |removed|
  {
    seq(|removed|, i requires 0 <= i < |removed| => Merger(removed[i].1, removed[i].0))
  }

  lemma OneMoreMerger(h: Hypergraph, removed: seq<(nat, nat)>, e: nat, r: nat)
    ensures var run, longer := Mergers(removed), Mergers(removed + [(e, r)]);
            && (LegalRun(h, longer) <==> LegalRun(h, run) && Parallel(DoAll(h, run), r, e))
            && (LegalRun(h, longer) ==> DoAll(h, longer) == Merge(DoAll(h, run), r, e))
  {
    assert Mergers(removed + [(e, r)]) == Mergers(removed) + [Merger(r, e)];
    RunExtended(h, Mergers(removed), Merger(r, e));
  }

  /** What RemoveParallelHyperedges returns is the run that it has done. */
  lemma {:induction false} RemovedIsRun(h: Hypergraph, reps: seq<nat>, n: nat)
    requires AllEnabled(h) && Represents(h, reps) && n <= |reps|
    ensures LegalRun(h, Mergers(RemovedPairs(reps, n)))
            && DoAll(h, Mergers(RemovedPairs(reps, n))) == Merged(h, reps, n)
  {
    if n > 0 {
      RemovedIsRun(h, reps, n - 1);
      if reps[n - 1] != n - 1 {
        NextParallel(h, reps, n - 1);
        OneMoreMerger(h, RemovedPairs(reps, n - 1), n - 1, reps[n - 1]);
      }
    }
  }

  /** Removes every net that has the same pins as an earlier one, which takes over its
      weight. Returns the removed nets with their representatives. */
  method RemoveParallelHyperedges(g: GenericHypergraph, cs2: nat -> nat)
    returns (removed: seq<(nat, nat)>, ghost reps: seq<nat>)
    requires g.Rep() && g.CountsExact() && g.NumbersOf(g.Abs()) && Valid(g.Abs()) && AllEnabled(g.Abs())
             && |g.rows| <= LIMIT
    modifies g`hypernodes, g`hyperedges, g`rows, g`currentNumHyperedges, g`currentNumPins
    ensures g.Rep() && g.CountsExact() && g.NumbersOf(g.Abs())
    ensures g.Part() == old(g.Part()) && g.Borders() == old(g.Borders())
    ensures Represents(old(g.Abs()), reps) && g.Abs() == Merged(old(g.Abs()), reps, |reps|)
    ensures removed == RemovedPairs(reps, |reps|)
    ensures LegalRun(old(g.Abs()), Mergers(removed)) && g.Abs() == DoAll(old(g.Abs()), Mergers(removed))
  {
    ghost var h := g.Abs();
    var representatives := FindRepresentatives(g, cs2);
    reps, removed := representatives, [];
    for he: nat := 0 to |representatives|
      invariant g.Rep() && g.CountsExact() && g.NumbersOf(g.Abs())
      invariant g.Part() == old(g.Part()) && g.Borders() == old(g.Borders())
      invariant g.Abs() == Merged(h, reps, he) && removed == RemovedPairs(reps, he)
    {
      var merged := MergeNext(g, representatives, he, h);
      if merged {
        removed := removed + [(he, representatives[he])];
      }
    }
    RemovedIsRun(h, reps, |reps|);
  }

  // ------------------------------------------------------------------ restoring

  lemma MergeKeepsAssigned(h: Hypergraph, r: nat, e: nat, part: Partition, k: nat)
    requires Parallel(h, r, e) && FullyAssigned(Merge(h, r, e), part, k)
    ensures FullyAssigned(h, part, k)
  {
    var m := Merge(h, r, e);
    forall p | 0 <= p < |h.nodes| && h.nodes[p].enabled ensures 0 <= part[p] < k {
      assert m.nodes[p].enabled;
    }
  }

  /** The hypergraph h, except that the nets in removed have been merged. */
  ghost predicate Lacking(g: GenericHypergraph, h: Hypergraph, removed: seq<(nat, nat)>)
    reads g, g.incidence
  {
    && g.Rep() && g.CountsExact() && g.NumbersOf(g.Abs())
    && LegalRun(h, Mergers(removed)) && g.Abs() == DoAll(h, Mergers(removed))
  }

  /** The partition is part; if all nodes have blocks, the border counters are off by errors. */
  ghost predicate OffAsBefore(g: GenericHypergraph, part: Partition, inBlocks: bool, errors: seq<int>)
    requires WellLaid(g.hyperedges, g.incidence[..])
    reads g, g.incidence
  {
    && g.Part() == part && BlocksInRange(part, g.k)
    && (inBlocks ==> FullyAssigned(g.Abs(), part, g.k) && BorderErrors(g.Abs(), part, g.Borders()) == errors)
  }

  /** Restores the last net that is still removed. */
  method RestoreNext(g: GenericHypergraph, removed: seq<(nat, nat)>, e: nat, r: nat,
                     ghost h: Hypergraph, ghost part: Partition, ghost inBlocks: bool, ghost errors: seq<int>)
    requires Valid(h) && Lacking(g, h, removed + [(e, r)]) && OffAsBefore(g, part, inBlocks, errors)
    modifies g`hypernodes, g`hyperedges, g`rows, g`currentNumHyperedges, g`currentNumPins
    ensures Lacking(g, h, removed) && OffAsBefore(g, part, inBlocks, errors)
  {
    OneMoreMerger(h, removed, e, r);
    ghost var before := DoAll(h, Mergers(removed));
    RunKeepsValid(h, Mergers(removed));
    MergedIsRestorable(before, r, e);
    if inBlocks {
      MergeKeepsAssigned(before, r, e, part, g.k);
      NetAssigned(before, part, g.k, e);
    }
    UnmergeInverts(before, r, e);
    UnmergeNet(g, r, e);
  }

  /** Restores all removed nets, the last one first: the hypergraph is as it was before they
      were removed, and the border counters are as exact as when the restoring began. */
  method RestoreParallelHyperedges(g: GenericHypergraph, removed: seq<(nat, nat)>, ghost h: Hypergraph)
    requires Valid(h) && Lacking(g, h, removed) && BlocksInRange(g.Part(), g.k)
    modifies g`hypernodes, g`hyperedges, g`rows, g`currentNumHyperedges, g`currentNumPins
    ensures g.Rep() && g.CountsExact() && g.NumbersOf(g.Abs())
    ensures g.Abs() == h && g.Part() == old(g.Part())
    ensures FullyAssigned(old(g.Abs()), g.Part(), g.k) ==>
              BorderErrors(g.Abs(), g.Part(), g.Borders()) == old(BorderErrors(g.Abs(), g.Part(), g.Borders()))
  {
    ghost var part, errors := g.Part(), BorderErrors(g.Abs(), g.Part(), g.Borders());
    ghost var inBlocks := FullyAssigned(g.Abs(), part, g.k);
    assert removed[..|removed|] == removed;
    for i := |removed| downto 0
      invariant Lacking(g, h, removed[..i]) && OffAsBefore(g, part, inBlocks, errors)
    {
      assert removed[..i + 1] == removed[..i] + [removed[i]];
      RestoreNext(g, removed[..i], removed[i].0, removed[i].1, h, part, inBlocks, errors);
    }
  }
}
