/** Discarding a pair by giving it the negative weight of all nets does not always keep it out
    of the matching. The inputs here have block weights with exactly one balanced relabelling,
    a cyclic shift, which no net favours, while all nets favour leaving the blocks as they are. */
module DiscardedPairs {
  import opened Sums
  import opened NLevel
  import opened Partitions
  import opened FlowNetwork
  import opened Koenig
  import opened Assignment
  import opened Relabelling

  // ----------------------------------------------------------------- the inputs

  /** k blocks of free nodes weigh k - 1, k - 2, .., 1 and k. */
  function FreeWeight(k: nat, j: nat): int {
    if j + 1 == k then k else k - 1 - j
  }

  /** The nodes fixed to block i weigh i + 1, and no block may weigh more than k + 1. */
  function ExampleWeights(k: nat): Weights {
    Weights(seq(k, i => i + 1), seq(k, j requires 0 <= j < k => FreeWeight(k, j)), seq(k, _ => k + 1))
  }

  /** The even numbers below k. */
  function Evens(k: nat): set<nat> {
    set j: nat | j < k && j % 2 == 0
  }

  /** The numbers of the nodes that are fixed to these blocks. */
  function FixedNodes(k: nat, blocks: set<nat>): set<nat> {
    set j | j in blocks :: k + j
  }

  /** A net that connects these blocks and the nodes fixed to them. */
  function NetOf(k: nat, blocks: set<nat>, weight: int): Net {
    Net(blocks + FixedNodes(k, blocks), [], weight, true)
  }

  function BlocksAt(k: nat, e: nat): set<nat> {
    if e == 0 then Evens(k) else {0}
  }

  /** A net of weight a on the even blocks and, if b is not zero, one of weight b on block 0. */
  function ExampleNets(k: nat, a: int, b: int): (nets: seq<Net>)
    ensures |nets| == if b == 0 then 1 else 2
    ensures forall e {:trigger nets[e]} | 0 <= e < |nets| ::
              nets[e] == NetOf(k, BlocksAt(k, e), if e == 0 then a else b)
  {
    if b == 0 then [NetOf(k, Evens(k), a)] else [NetOf(k, Evens(k), a), NetOf(k, {0}, b)]
  }

  function NetsAt(nets: seq<Net>, v: nat): set<nat> {
    set e: nat | e < |nets| && v in nets[e].pins
  }

  /** Node j below k is block j of the free nodes, node k + i is fixed to block i. */
  function Example(k: nat, a: int, b: int): Hypergraph {
    Hypergraph(
      seq(2 * k, v requires 0 <= v < 2 * k =>
        Node(NetsAt(ExampleNets(k, a, b), v), if v < k then FreeWeight(k, v) else v - k + 1, true)),
      ExampleNets(k, a, b))
  }

  function FreePart(k: nat): Partition {
    seq(2 * k, v => if v < k then v else INVALID_PARTITION)
  }

  function FixedPart(k: nat): Partition {
    seq(2 * k, v => if v < k then INVALID_PARTITION else v - k)
  }

  function Identity(k: nat): seq<nat> {
    seq(k, j requires 0 <= j < k => j)
  }

  /** The last block becomes the first one, every other block the next one. */
  function Shift(k: nat): seq<nat> {
    seq(k, j requires 0 <= j < k => if j + 1 == k then 0 else j + 1)
  }

  /** The matrix over which the matching of the example is computed. */
  function ExampleGraph(obj: Objective, k: nat, a: int, b: int): Matrix {
    seq(k, i requires 0 <= i < k => seq(k, j requires 0 <= j < k =>
      if Discarded(ExampleWeights(k), i, j) then -NetWeight(Example(k, a, b))
      else PairTotal(obj, Example(k, a, b), FreePart(k), FixedPart(k), i, j)))
  }

  // ---------------------------------------------------- what they are made of

  lemma ExampleIsValid(k: nat, a: int, b: int)
    requires k > 0
    ensures Valid(Example(k, a, b)) && Splits(Example(k, a, b), FreePart(k), FixedPart(k), k)
    ensures IsPermutation(k, Identity(k)) && IsPermutation(k, Shift(k))
  {
    var h := Example(k, a, b);
    forall e, p | 0 <= e < |h.nets| && p in h.nets[e].pins ensures HasNode(h, p) && e in h.nodes[p].nets {}
    forall v, e | 0 <= v < |h.nodes| && e in h.nodes[v].nets ensures HasNet(h, e) && v in h.nets[e].pins {}
  }

  lemma SumOfFew(s: seq<int>)
    requires 1 <= |s| <= 2
    ensures Sum(s) == if |s| == 1 then s[0] else s[0] + s[1]
  {
    assert s[..0] == [];
    SumPrefix(s, 0);
    if |s| == 2 {
      SumPrefix(s, 1);
    }
    assert s[..|s|] == s;
  }

  /** A sum of which only one element is not zero. */
  lemma SumOfSingle(s: seq<int>, i: nat)
    requires i < |s| && forall j {:trigger s[j]} | 0 <= j < |s| && j != i :: s[j] == 0
    ensures Sum(s) == s[i]
  {
    SumConstant(s[i := 0], 0);
    SumUpdate(s, i, 0);
  }

  lemma WeightsAreRight(k: nat, a: int, b: int)
    ensures forall j {:trigger ExampleWeights(k).free[j]} | 0 <= j < k ::
              ExampleWeights(k).free[j] == BlockWeight(Example(k, a, b), FreePart(k), j)
    ensures forall i {:trigger ExampleWeights(k).fixed[i]} | 0 <= i < k ::
              ExampleWeights(k).fixed[i] == BlockWeight(Example(k, a, b), FixedPart(k), i)
  {
    var h := Example(k, a, b);
    forall j | 0 <= j < k
      ensures ExampleWeights(k).free[j] == BlockWeight(h, FreePart(k), j)
      ensures ExampleWeights(k).fixed[j] == BlockWeight(h, FixedPart(k), j)
    {
      SumOfSingle(seq(|h.nodes|, v requires 0 <= v < |h.nodes| => WeightIn(h, FreePart(k), j, v)), j);
      SumOfSingle(seq(|h.nodes|, v requires 0 <= v < |h.nodes| => WeightIn(h, FixedPart(k), j, v)), k + j);
    }
  }

  /** The free pins and the fixed pins of a net are in the same blocks. */
  lemma BlocksOfNet(k: nat, blocks: set<nat>, weight: int)
    requires forall j | j in blocks :: j < k
    ensures FreeBlocks(NetOf(k, blocks, weight).pins, FreePart(k), FixedPart(k)) == blocks
    ensures FixedBlocks(NetOf(k, blocks, weight).pins, FixedPart(k)) == blocks
  {
    var pins := NetOf(k, blocks, weight).pins;
    assert FreePins(pins, FixedPart(k)) == blocks;
    assert FixedPins(pins, FixedPart(k)) == FixedNodes(k, blocks);
    forall j | j in blocks
      ensures BlockOf(FreePart(k), j) == j && k + j in FixedNodes(k, blocks) && BlockOf(FixedPart(k), k + j) == j {}
    forall p | p in FixedNodes(k, blocks) ensures p >= k && BlockOf(FixedPart(k), p) == p - k && p - k in blocks {}
  }

  lemma {:induction false} HalfAreEven(m: nat)
    ensures |Evens(2 * m)| == m
  {
    if m == 0 {
      assert Evens(0) == {};
    } else {
      HalfAreEven(m - 1);
      var e: nat := 2 * m - 2;
      assert Evens(2 * m) == Evens(2 * m - 2) + {e};
    }
  }

  lemma PairOfNet(obj: Objective, k: nat, blocks: set<nat>, weight: int, i: nat, j: nat)
    requires (forall c | c in blocks :: c < k) && (obj.CUT? ==> |blocks| == 1)
    ensures PairWeight(obj, NetOf(k, blocks, weight), FreePart(k), FixedPart(k), i, j)
         == if i in blocks && j in blocks then weight else 0
  {
    BlocksOfNet(k, blocks, weight);
  }

  lemma OverlapOfExampleNet(obj: Objective, k: nat, blocks: set<nat>, weight: int)
    requires (forall c | c in blocks :: c < k) && (obj.CUT? ==> |blocks| == 1)
    ensures OverlapOfNet(obj, NetOf(k, blocks, weight), FreePart(k), FixedPart(k)) == |blocks| * weight
  {
    BlocksOfNet(k, blocks, weight);
  }

  lemma SizesOfBlocks(m: nat, e: nat)
    requires m > 0 && e < 2
    ensures |BlocksAt(2 * m, e)| == (if e == 0 then m else 1) && forall c | c in BlocksAt(2 * m, e) ::
              c < 2 * m && c % 2 == 0
  {
    HalfAreEven(m);
  }

  /** A pair with an odd block weighs nothing. */
  lemma OddPairsWeighNothing(obj: Objective, m: nat, a: int, b: int, i: nat, j: nat)
    requires m > 0 && (obj.CUT? ==> m == 1) && (i % 2 == 1 || j % 2 == 1)
    ensures PairTotal(obj, Example(2 * m, a, b), FreePart(2 * m), FixedPart(2 * m), i, j) == 0
  {
    var k := 2 * m;
    var h, part, fixedPart := Example(k, a, b), FreePart(k), FixedPart(k);
    var pairs := seq(|h.nets|, e requires 0 <= e < |h.nets| => PairWeight(obj, h.nets[e], part, fixedPart, i, j));
    forall e: nat | e < |h.nets| ensures pairs[e] == 0 {
      SizesOfBlocks(m, e);
      PairOfNet(obj, k, BlocksAt(k, e), if e == 0 then a else b, i, j);
    }
    SumConstant(pairs, 0);
  }

  lemma TotalsOfExample(obj: Objective, m: nat, a: int, b: int)
    requires m > 0 && (obj.CUT? ==> m == 1)
    ensures NetWeight(Example(2 * m, a, b)) == a + b
    ensures Overlap(obj, Example(2 * m, a, b), FreePart(2 * m), FixedPart(2 * m)) == m * a + b
  {
    var k := 2 * m;
    var h, part, fixedPart := Example(k, a, b), FreePart(k), FixedPart(k);
    SumOfFew(NetWeights(h));
    var overlaps := seq(|h.nets|, e requires 0 <= e < |h.nets| => OverlapOfNet(obj, h.nets[e], part, fixedPart));
    SizesOfBlocks(m, 0);
    OverlapOfExampleNet(obj, k, BlocksAt(k, 0), a);
    SizesOfBlocks(m, 1);
    OverlapOfExampleNet(obj, k, BlocksAt(k, 1), b);
    SumOfFew(overlaps);
  }

  // ------------------------------------------------------ the two relabellings

  lemma Differ(k: nat, perm: seq<nat>, i: int, j: int)
    requires IsPermutation(k, perm)
    ensures 0 <= i < j < k ==> perm[i] != perm[j]
  {}

  /** The shift is the only balanced relabelling. */
  lemma {:induction false} OnlyShiftFits(k: nat, perm: seq<nat>, n: nat)
    requires k > 0 && IsPermutation(k, perm) && Avoids(ExampleWeights(k), k, perm) && n < k
    ensures perm[k - 1] == 0 && forall j {:trigger perm[j]} | 0 <= j < n :: perm[j] == j + 1
  {
    assert !Discarded(ExampleWeights(k), perm[k - 1], k - 1);
    if n > 0 {
      OnlyShiftFits(k, perm, n - 1);
      assert !Discarded(ExampleWeights(k), perm[n - 1], n - 1);
      Differ(k, perm, n - 1, k - 1);
      Differ(k, perm, perm[n - 1] - 1, n - 1);
    }
  }

  lemma OnlyShiftAvoids(k: nat, perm: seq<nat>)
    requires k > 0 && IsPermutation(k, perm)
    ensures Avoids(ExampleWeights(k), k, perm) <==> perm == Shift(k)
  {
    if Avoids(ExampleWeights(k), k, perm) {
      OnlyShiftFits(k, perm, k - 1);
      assert perm == Shift(k);
    }
  }

  lemma GraphIsRight(obj: Objective, k: nat, a: int, b: int)
    ensures IsMatchingGraph(ExampleGraph(obj, k, a, b), obj, Example(k, a, b), FreePart(k), FixedPart(k),
                            ExampleWeights(k))
  {}

  lemma WeightInExample(obj: Objective, k: nat, a: int, b: int, perm: seq<nat>)
    requires IsPermutation(k, perm) && Avoids(ExampleWeights(k), k, perm)
    ensures MatchingWeight(ExampleGraph(obj, k, a, b), MatchingOf(perm))
         == Sum(PairTotals(obj, Example(k, a, b), FreePart(k), FixedPart(k), perm))
  {
    GraphIsRight(obj, k, a, b);
    WeightOfPermutation(ExampleGraph(obj, k, a, b), obj, Example(k, a, b), FreePart(k), FixedPart(k),
                        ExampleWeights(k), perm);
  }

  /** No net favours the shift. */
  lemma ShiftWeighsNothing(obj: Objective, m: nat, a: int, b: int)
    requires m > 0 && (obj.CUT? ==> m == 1)
    ensures IsPermutation(2 * m, Shift(2 * m)) && Avoids(ExampleWeights(2 * m), 2 * m, Shift(2 * m))
    ensures MatchingWeight(ExampleGraph(obj, 2 * m, a, b), MatchingOf(Shift(2 * m))) == 0
  {
    var k := 2 * m;
    OnlyShiftAvoids(k, Shift(k));
    WeightInExample(obj, k, a, b, Shift(k));
    ShiftTotals(obj, m, a, b);
  }

  lemma ShiftTotals(obj: Objective, m: nat, a: int, b: int)
    requires m > 0 && (obj.CUT? ==> m == 1)
    ensures Sum(PairTotals(obj, Example(2 * m, a, b), FreePart(2 * m), FixedPart(2 * m), Shift(2 * m))) == 0
  {
    var k := 2 * m;
    var totals := PairTotals(obj, Example(k, a, b), FreePart(k), FixedPart(k), Shift(k));
    forall j: nat | j < k ensures totals[j] == 0 {
      OddPairsWeighNothing(obj, m, a, b, Shift(k)[j], j);
    }
    SumConstant(totals, 0);
  }

  lemma IdentityKeeps(k: nat, blocks: set<nat>)
    requires forall j | j in blocks :: j < k
    ensures RenamedSet(Identity(k), blocks) * blocks == blocks
  {
    forall j | j in blocks ensures j in RenamedSet(Identity(k), blocks) {
      assert Renamed(Identity(k), j) == j;
    }
  }

  /** With the blocks left as they are a net gets all it can. */
  lemma IdentityMeets(obj: Objective, k: nat, blocks: set<nat>, weight: int)
    requires (forall j | j in blocks :: j < k) && (obj.CUT? ==> |blocks| == 1)
    ensures var n := NetOf(k, blocks, weight);
            Sum(PairWeights(obj, n, FreePart(k), FixedPart(k), Identity(k)))
              == OverlapOfNet(obj, n, FreePart(k), FixedPart(k))
  {
    var n, all: set<int> := NetOf(k, blocks, weight), blocks;
    var meetings, pairs :=
      Meetings(all, all, Identity(k), k), PairWeights(obj, n, FreePart(k), FixedPart(k), Identity(k));
    forall j: nat | j < k ensures pairs[j] == meetings[j] * weight {
      PairOfNet(obj, k, blocks, weight, j, j);
    }
    OverlapOfExampleNet(obj, k, blocks, weight);
    ScaledSum(meetings, pairs, weight);
    MeetingsCount(all, all, Identity(k), k);
    assert Below(all, k) == all;
    IdentityKeeps(k, blocks);
  }

  lemma IdentityTotals(obj: Objective, m: nat, a: int, b: int)
    requires m > 0 && (obj.CUT? ==> m == 1)
    ensures Sum(PairTotals(obj, Example(2 * m, a, b), FreePart(2 * m), FixedPart(2 * m), Identity(2 * m)))
         == Overlap(obj, Example(2 * m, a, b), FreePart(2 * m), FixedPart(2 * m))
  {
    var k := 2 * m;
    var h, part, fixedPart := Example(k, a, b), FreePart(k), FixedPart(k);
    var sums := RowSums(PairMatrix(obj, h, part, fixedPart, Identity(k)));
    forall e: nat | e < |h.nets| ensures sums[e] == OverlapOfNet(obj, h.nets[e], part, fixedPart) {
      SizesOfBlocks(m, e);
      IdentityMeets(obj, k, BlocksAt(k, e), if e == 0 then a else b);
    }
    assert sums == seq(|h.nets|, e requires 0 <= e < |h.nets| => OverlapOfNet(obj, h.nets[e], part, fixedPart));
    PairsByNet(obj, h, part, fixedPart, Identity(k));
  }

  lemma IdentityDoesNotAvoid(k: nat)
    requires k > 1
    ensures IsPermutation(k, Identity(k)) && !Avoids(ExampleWeights(k), k, Identity(k))
  {
    OnlyShiftAvoids(k, Identity(k));
    assert Identity(k)[0] == 0 && Shift(k)[0] == 1;
  }

  /** All nets favour leaving the blocks as they are, in spite of the one discarded pair. */
  lemma IdentityWeighs(obj: Objective, m: nat, a: int, b: int)
    requires m > 0 && (obj.CUT? ==> m == 1)
    ensures IsPermutation(2 * m, Identity(2 * m)) && !Avoids(ExampleWeights(2 * m), 2 * m, Identity(2 * m))
    ensures MatchingWeight(ExampleGraph(obj, 2 * m, a, b), MatchingOf(Identity(2 * m))) == m * a + b - (a + b)
  {
    var k := 2 * m;
    IdentityDoesNotAvoid(k);
    TotalsOfExample(obj, m, a, b);
    IdentityTotals(obj, m, a, b);
    OddPairsWeighNothing(obj, m, a, b, k - 1, k - 1);
    var totals := PairTotals(obj, Example(k, a, b), FreePart(k), FixedPart(k), Identity(k));
    SumUpdate(totals, k - 1, -(a + b));
    IdentityEntries(obj, k, a, b);
  }

  lemma IdentityEntries(obj: Objective, k: nat, a: int, b: int)
    requires k > 1
    ensures var g, p, h := ExampleGraph(obj, k, a, b), MatchingOf(Identity(k)), Example(k, a, b);
            seq(|p|, c requires 0 <= c < |p| => g[p[c].0][p[c].1])
            == PairTotals(obj, h, FreePart(k), FixedPart(k), Identity(k))[k - 1 := -NetWeight(h)]
  {
    forall j: nat | j < k ensures Discarded(ExampleWeights(k), j, j) <==> j == k - 1 {}
  }

  // ------------------------------------------------------------------ matchings

  /** Every perfect matching renames the blocks in some way. */
  lemma SomePermutationFollows(k: nat, m: seq<Edge>) returns (perm: seq<nat>)
    requires IsPerfect(k, m)
    ensures IsPermutation(k, perm) && Follows(perm, m)
  {
    perm := PartnersBelow(k, m, k);
    MatchingPermutes(k, m, perm);
  }

  lemma {:induction false} PartnersBelow(k: nat, m: seq<Edge>, n: nat) returns (perm: seq<nat>)
    requires IsPerfect(k, m) && n <= k
    ensures |perm| == n && forall a {:trigger m[a]} | 0 <= a < |m| && m[a].1 < n :: perm[m[a].1] == m[a].0
  {
    if n == 0 {
      perm := [];
    } else {
      perm := PartnersBelow(k, m, n - 1);
      var c := MatchedAt(k, m, n - 1);
      perm := perm + [m[c].0];
      forall a | 0 <= a < |m| && a != c ensures m[a].1 != n - 1 {
        assert if a < c then m[a].1 != m[c].1 else m[c].1 != m[a].1;
      }
    }
  }

  /** Where the overlap is as large as the weight of all nets, leaving the blocks as they
      are is a matching of maximum weight. */
  lemma IdentityIsMaximum(obj: Objective, m: nat, a: nat, b: nat)
    requires m > 0 && (obj.CUT? ==> m == 1) && a + b <= m * a + b
    ensures IsPermutation(2 * m, Identity(2 * m))
    ensures IsMaximumWeight(ExampleGraph(obj, 2 * m, a, b), MatchingOf(Identity(2 * m)))
  {
    var k := 2 * m;
    var h, g := Example(k, a, b), ExampleGraph(obj, k, a, b);
    IdentityWeighs(obj, m, a, b);
    PermutationMatches(k, Identity(k));
    forall matching | IsPerfect(k, matching)
      ensures MatchingWeight(g, matching) <= MatchingWeight(g, MatchingOf(Identity(k)))
    {
      var perm := SomePermutationFollows(k, matching);
      GraphIsRight(obj, k, a, b);
      SameWeight(g, matching, perm);
      TotalsOfExample(obj, m, a, b);
      if Avoids(ExampleWeights(k), k, perm) {
        OnlyShiftAvoids(k, perm);
        ShiftWeighsNothing(obj, m, a, b);
      } else {
        DiscardedPairCosts(g, obj, h, FreePart(k), FixedPart(k), ExampleWeights(k), perm);
      }
    }
  }

  // ------------------------------------------------ when discarding is effective

  /** What the matching graph g is computed from. */
  ghost predicate IsInput(obj: Objective, h: Hypergraph, part: Partition, fixedPart: Partition, w: Weights, g: Matrix) {
    && Valid(h) && Splits(h, part, fixedPart, |g|) && NonNegativeWeights(h)
    && IsMatchingGraph(g, obj, h, part, fixedPart, w)
    && (forall j {:trigger w.free[j]} | 0 <= j < |g| :: w.free[j] == BlockWeight(h, part, j))
    && (forall i {:trigger w.fixed[i]} | 0 <= i < |g| :: w.fixed[i] == BlockWeight(h, fixedPart, i))
  }

  /** For all inputs with this weight of all nets and this overlap of free and fixed blocks:
      if some relabelling is balanced then so is that by any matching of maximum weight. */
  ghost predicate Effective(obj: Objective, total: int, overlap: int) {
    forall h, part, fixedPart, w, g, m, perm
      {:trigger IsInput(obj, h, part, fixedPart, w, g), IsMaximumWeight(g, m), Follows(perm, m)}
      | IsInput(obj, h, part, fixedPart, w, g) && NetWeight(h) == total && Overlap(obj, h, part, fixedPart) == overlap
        && CanBalance(h, part, fixedPart, |g|, w.max) && IsMaximumWeight(g, m) && |perm| == |g| && Follows(perm, m)
      :: Balanced(h, Final(part, fixedPart, perm), w.max)
  }

  /** There are inputs with these totals. */
  ghost predicate Attained(obj: Objective, total: int, overlap: int) {
    exists h, part, fixedPart, w, g {:trigger IsInput(obj, h, part, fixedPart, w, g)} ::
      IsInput(obj, h, part, fixedPart, w, g) && NetWeight(h) == total && Overlap(obj, h, part, fixedPart) == overlap
  }

  lemma EnoughWeightIsEffective(obj: Objective, total: int, overlap: int)
    requires overlap < total
    ensures Effective(obj, total, overlap)
  {
    forall h, part, fixedPart, w, g, m, perm
      {:trigger IsInput(obj, h, part, fixedPart, w, g), IsMaximumWeight(g, m), Follows(perm, m)}
      | IsInput(obj, h, part, fixedPart, w, g) && NetWeight(h) == total && Overlap(obj, h, part, fixedPart) == overlap
        && CanBalance(h, part, fixedPart, |g|, w.max) && IsMaximumWeight(g, m) && |perm| == |g| && Follows(perm, m)
      ensures Balanced(h, Final(part, fixedPart, perm), w.max)
    {
      var balanced :| IsPermutation(|g|, balanced) && Balanced(h, Final(part, fixedPart, balanced), w.max);
      MatchingPermutes(|g|, m, perm);
      BalancedIffAvoids(h, part, fixedPart, |g|, w, balanced);
      BalancedIffAvoids(h, part, fixedPart, |g|, w, perm);
      DiscardingIsEffective(g, obj, h, part, fixedPart, w, m, perm, balanced);
    }
  }

  lemma ExampleIsInput(obj: Objective, k: nat, a: nat, b: nat)
    requires k > 0
    ensures IsInput(obj, Example(k, a, b), FreePart(k), FixedPart(k), ExampleWeights(k), ExampleGraph(obj, k, a, b))
  {
    ExampleIsValid(k, a, b);
    GraphIsRight(obj, k, a, b);
    WeightsAreRight(k, a, b);
  }

  /** In the example the shift, and nothing else, gives a balanced partition. */
  lemma OnlyShiftBalances(k: nat, a: nat, b: nat, perm: seq<nat>)
    requires k > 0 && IsPermutation(k, perm)
    ensures Balanced(Example(k, a, b), Final(FreePart(k), FixedPart(k), perm), ExampleWeights(k).max)
            <==> perm == Shift(k)
  {
    ExampleIsValid(k, a, b);
    WeightsAreRight(k, a, b);
    BalancedIffAvoids(Example(k, a, b), FreePart(k), FixedPart(k), k, ExampleWeights(k), perm);
    OnlyShiftAvoids(k, perm);
  }

  /** A balanced relabelling exists, and a matching of maximum weight that misses it. */
  lemma BalancedRelabellingMissed(obj: Objective, m: nat, a: nat, b: nat)
    requires m > 0 && (obj.CUT? ==> m == 1)
    ensures var k := 2 * m;
            var h, part, fixedPart, w, g :=
              Example(k, a, b), FreePart(k), FixedPart(k), ExampleWeights(k), ExampleGraph(obj, k, a, b);
            && IsInput(obj, h, part, fixedPart, w, g) && NetWeight(h) == a + b
               && Overlap(obj, h, part, fixedPart) == m * a + b
            && CanBalance(h, part, fixedPart, k, w.max)
            && IsMaximumWeight(g, MatchingOf(Identity(k))) && Follows(Identity(k), MatchingOf(Identity(k)))
            && !Balanced(h, Final(part, fixedPart, Identity(k)), w.max)
  {
    var k := 2 * m;
    ExampleIsInput(obj, k, a, b);
    TotalsOfExample(obj, m, a, b);
    ExampleIsValid(k, a, b);
    OnlyShiftBalances(k, a, b, Shift(k));
    OnlyShiftBalances(k, a, b, Identity(k));
    assert Identity(k)[0] == 0 && Shift(k)[0] == 1;
    AtLeastOnce(m, a);
    IdentityIsMaximum(obj, m, a, b);
  }

  lemma AtLeastOnce(m: nat, a: nat)
    requires m > 0
    ensures a <= m * a
  {}

  lemma MaximumWeighsSomething(m: nat, a: nat, b: nat, matching: seq<Edge>)
    requires m > 1 && a > 0 && Square(ExampleGraph(KM1, 2 * m, a, b), 2 * m)
    requires IsMaximumWeight(ExampleGraph(KM1, 2 * m, a, b), matching)
    ensures MatchingWeight(ExampleGraph(KM1, 2 * m, a, b), matching) > 0
  {
    IdentityWeighs(KM1, m, a, b);
    PermutationMatches(2 * m, Identity(2 * m));
    MoreThanOnce(m, a);
  }

  /** With more overlap than weight every matching of maximum weight misses it. */
  lemma BalancedRelabellingAlwaysMissed(m: nat, a: nat, b: nat, matching: seq<Edge>, perm: seq<nat>)
    requires m > 1 && a > 0 && Square(ExampleGraph(KM1, 2 * m, a, b), 2 * m)
    requires IsMaximumWeight(ExampleGraph(KM1, 2 * m, a, b), matching) && |perm| == 2 * m && Follows(perm, matching)
    ensures IsPermutation(2 * m, perm) && perm != Shift(2 * m)
    ensures !Balanced(Example(2 * m, a, b), Final(FreePart(2 * m), FixedPart(2 * m), perm), ExampleWeights(2 * m).max)
  {
    MatchingPermutes(2 * m, matching, perm);
    SameWeight(ExampleGraph(KM1, 2 * m, a, b), matching, perm);
    MaximumWeighsSomething(m, a, b, matching);
    ShiftWeighsNothing(KM1, m, a, b);
    OnlyShiftBalances(2 * m, a, b, perm);
  }

  lemma MoreThanOnce(m: nat, a: nat)
    requires m > 1 && a > 0
    ensures a < m * a
  {}

  /** Two blocks of free nodes of weights 1 and 2, nodes of weights 1 and 2 fixed to blocks 0
      and 1, no block heavier than 3, and a net that connects block 0 with the node fixed to
      it: leaving the blocks as they are, which is not balanced, and exchanging them, which
      is, are both matchings of maximum weight. */
  lemma TwoBlocksTie(obj: Objective, weight: nat)
    ensures ExampleWeights(2) == Weights([1, 2], [1, 2], [3, 3])
    ensures Example(2, weight, 0)
         == Hypergraph([Node({0}, 1, true), Node({}, 2, true), Node({0}, 1, true), Node({}, 2, true)],
                       [Net({0, 2}, [], weight, true)])
    ensures IsInput(obj, Example(2, weight, 0), [0, 1, -1, -1], [-1, -1, 0, 1], ExampleWeights(2),
                    ExampleGraph(obj, 2, weight, 0))
    ensures IsMaximumWeight(ExampleGraph(obj, 2, weight, 0), MatchingOf([0, 1]))
    ensures IsMaximumWeight(ExampleGraph(obj, 2, weight, 0), MatchingOf([1, 0]))
    ensures !Balanced(Example(2, weight, 0), Final([0, 1, -1, -1], [-1, -1, 0, 1], [0, 1]), [3, 3])
    ensures Balanced(Example(2, weight, 0), Final([0, 1, -1, -1], [-1, -1, 0, 1], [1, 0]), [3, 3])
  {
    assert Identity(2) == [0, 1] && Shift(2) == [1, 0];
    assert FreePart(2) == [0, 1, -1, -1] && FixedPart(2) == [-1, -1, 0, 1];
    TwoBlocks(weight);
    ExampleIsInput(obj, 2, weight, 0);
    BothAreMaximum(obj, weight);
    ExampleIsValid(2, weight, 0);
    OnlyShiftBalances(2, weight, 0, [0, 1]);
    OnlyShiftBalances(2, weight, 0, [1, 0]);
  }

  lemma TwoBlocks(weight: nat)
    ensures ExampleWeights(2) == Weights([1, 2], [1, 2], [3, 3])
    ensures Example(2, weight, 0)
         == Hypergraph([Node({0}, 1, true), Node({}, 2, true), Node({0}, 1, true), Node({}, 2, true)],
                       [Net({0, 2}, [], weight, true)])
  {
    var h := Example(2, weight, 0);
    assert Evens(2) == {0} && FixedNodes(2, {0}) == {2};
    assert h.nets[0].pins == {0, 2};
    assert NetsAt(h.nets, 0) == {0} && NetsAt(h.nets, 1) == {} && NetsAt(h.nets, 2) == {0} && NetsAt(h.nets, 3) == {};
  }

  lemma BothAreMaximum(obj: Objective, weight: nat)
    requires Square(ExampleGraph(obj, 2, weight, 0), 2)
    ensures IsMaximumWeight(ExampleGraph(obj, 2, weight, 0), MatchingOf(Identity(2)))
    ensures IsMaximumWeight(ExampleGraph(obj, 2, weight, 0), MatchingOf(Shift(2)))
  {
    IdentityIsMaximum(obj, 1, weight, 0);
    ShiftWeighsNothing(obj, 1, weight, 0);
    IdentityWeighs(obj, 1, weight, 0);
    PermutationMatches(2, Shift(2));
  }

  /** Nets that weigh nothing do not overlap either, and by the cut metric nets do not
      overlap in more than their weight. */
  lemma OverlapBounded(obj: Objective, h: Hypergraph, part: Partition, fixedPart: Partition)
    requires NonNegativeWeights(h)
    ensures 0 <= NetWeight(h)
    ensures NetWeight(h) == 0 || obj.CUT? ==> Overlap(obj, h, part, fixedPart) <= NetWeight(h)
  {
    var weights, zeros := NetWeights(h), seq(|h.nets|, _ => 0);
    var overlaps := seq(|h.nets|, e requires 0 <= e < |h.nets| => OverlapOfNet(obj, h.nets[e], part, fixedPart));
    SumConstant(zeros, 0);
    forall e: nat | e < |h.nets| ensures 0 <= weights[e] {
      assert h.nets[e].enabled ==> 0 <= h.nets[e].weight;
    }
    SumMonotone(zeros, weights);
    if NetWeight(h) == 0 {
      forall e: nat | e < |h.nets| ensures overlaps[e] == 0 {
        NoWeightAtAll(weights, e);
      }
      SumMonotone(overlaps, weights);
    } else if obj.CUT? {
      SumMonotone(overlaps, weights);
    }
  }

  lemma NoWeightAtAll(s: seq<int>, i: nat)
    requires i < |s| && Sum(s) == 0 && forall j {:trigger s[j]} | 0 <= j < |s| :: 0 <= s[j]
    ensures s[i] == 0
  {
    SumConstant(s[i := 0][..0], 0);
    SumUpdate(s, i, 0);
    var zeros := seq(|s|, _ => 0);
    SumConstant(zeros, 0);
    SumMonotone(zeros, s[i := 0]);
  }

  /** Discarding pairs keeps every matching of maximum weight balanced, where that can be
      had, for all inputs with the same totals, if and only if the nets weigh more than free
      and fixed blocks overlap. */
  lemma EffectiveIff(obj: Objective, total: int, overlap: int)
    requires Attained(obj, total, overlap)
    ensures Effective(obj, total, overlap) <==> overlap < total
  {
    if overlap < total {
      EnoughWeightIsEffective(obj, total, overlap);
    } else {
      var h, part, fixedPart, w, g :|
        IsInput(obj, h, part, fixedPart, w, g) && NetWeight(h) == total && Overlap(obj, h, part, fixedPart) == overlap;
      OverlapBounded(obj, h, part, fixedPart);
      if overlap == total {
        NotEffective(obj, 1, total, 0);
      } else {
        NotEffective(obj, overlap - total + 1, 1, total - 1);
      }
    }
  }

  lemma NotEffective(obj: Objective, m: nat, a: nat, b: nat)
    requires m > 0 && (obj.CUT? ==> m == 1)
    ensures !Effective(obj, a + b, m * a + b)
  {
    BalancedRelabellingMissed(obj, m, a, b);
  }
}
