/** Relabelling the blocks of a partition of the free nodes so that they fit the blocks
    that fixed nodes must go to: what a permutation of the block ids costs, and how that
    is the weight of a matching. */
module Relabelling {
  import opened Sums
  import opened NLevel
  import opened Partitions
  import opened FlowNetwork
  import opened Koenig
  import opened Assignment

  datatype Objective = KM1 | CUT

  function ObjectiveOfNet(obj: Objective, n: Net, part: Partition): int {
    match obj
    case KM1 => Km1OfNet(n, part)
    case CUT => CutOfNet(n, part)
  }

  function ObjectiveOf(obj: Objective, h: Hypergraph, part: Partition): int {
    match obj
    case KM1 => Km1(h, part)
    case CUT => Cut(h, part)
  }

  /** perm gives every block from 0 to k - 1 another name from that range. */
  ghost predicate IsPermutation(k: nat, perm: seq<nat>) {
    && |perm| == k
    && (forall j {:trigger perm[j]} | 0 <= j < k :: perm[j] < k)
    && (forall i, j {:trigger perm[i], perm[j]} | 0 <= i < j < k :: perm[i] != perm[j])
  }

  function Renamed(perm: seq<nat>, b: int): int {
    if 0 <= b < |perm| then perm[b] else INVALID_PARTITION
  }

  /** The final partition: fixed nodes where they must go, free nodes in their renamed blocks. */
  function Final(part: Partition, fixedPart: Partition, perm: seq<nat>): (final: Partition)
    ensures |final| == |part|
  {
    seq(|part|, v requires 0 <= v < |part| =>
      if IsFixed(fixedPart, v) then BlockOf(fixedPart, v) else Renamed(perm, part[v]))
  }

  predicate IsFixed(fixedPart: Partition, v: nat) {
    BlockOf(fixedPart, v) != INVALID_PARTITION
  }

  function FreePins(pins: set<nat>, fixedPart: Partition): set<nat> {
    set p | p in pins && !IsFixed(fixedPart, p)
  }

  function FixedPins(pins: set<nat>, fixedPart: Partition): set<nat> {
    set p | p in pins && IsFixed(fixedPart, p)
  }

  /** The blocks of the free pins, before renaming. */
  function FreeBlocks(pins: set<nat>, part: Partition, fixedPart: Partition): set<int> {
    Blocks(FreePins(pins, fixedPart), part)
  }

  /** The blocks that the fixed pins must go to. */
  function FixedBlocks(pins: set<nat>, fixedPart: Partition): set<int> {
    Blocks(FixedPins(pins, fixedPart), fixedPart)
  }

  /** Every node of h is fixed or has a block, but not both; blocks are below k. */
  ghost predicate Splits(h: Hypergraph, part: Partition, fixedPart: Partition, k: nat) {
    && |part| == |fixedPart| == |h.nodes|
    && forall v {:trigger part[v]} {:trigger fixedPart[v]} | 0 <= v < |h.nodes| && h.nodes[v].enabled ::
         if IsFixed(fixedPart, v) then part[v] == INVALID_PARTITION && 0 <= fixedPart[v] < k else 0 <= part[v] < k
  }

  ghost predicate PinsSplit(pins: set<nat>, part: Partition, fixedPart: Partition, k: nat) {
    forall p | p in pins ::
      && p < |part|
      && if IsFixed(fixedPart, p) then 0 <= BlockOf(fixedPart, p) < k else 0 <= part[p] < k
  }

  lemma NetPinsSplit(h: Hypergraph, part: Partition, fixedPart: Partition, k: nat, e: nat)
    requires Valid(h) && HasNet(h, e) && Splits(h, part, fixedPart, k)
    ensures PinsSplit(h.nets[e].pins, part, fixedPart, k)
  {
    forall p | p in h.nets[e].pins
      ensures p < |part| && if IsFixed(fixedPart, p) then 0 <= BlockOf(fixedPart, p) < k else 0 <= part[p] < k
    {
      assert HasNode(h, p);
      assert fixedPart[p] == BlockOf(fixedPart, p);
    }
  }

  // ------------------------------------------------- what a net ends up costing

  function RenamedSet(perm: seq<nat>, blocks: set<int>): set<int> {
    set b | b in blocks :: Renamed(perm, b)
  }

  /** A block keeps apart from others when it is renamed with them. */
  lemma RenamedApart(k: nat, perm: seq<nat>, blocks: set<int>, j: nat)
    requires IsPermutation(k, perm) && j < k && j !in blocks
    requires forall b | b in blocks :: 0 <= b < k
    ensures perm[j] as int !in RenamedSet(perm, blocks)
    ensures RenamedSet(perm, blocks + {j}) == RenamedSet(perm, blocks) + {perm[j] as int}
  {
    forall b | b in blocks ensures Renamed(perm, b) != perm[j] {
      if b < j {
        assert perm[b] != perm[j];
      } else {
        assert perm[j] != perm[b];
      }
    }
    assert Renamed(perm, j) == perm[j];
  }

  function Below(blocks: set<int>, k: int): set<int> {
    set b | b in blocks && 0 <= b < k
  }

  /** A renaming keeps the number of blocks. */
  lemma {:induction false} RenamedSize(perm: seq<nat>, blocks: set<int>, k: nat)
    requires IsPermutation(|perm|, perm) && k <= |perm|
    ensures |RenamedSet(perm, Below(blocks, k))| == |Below(blocks, k)|
  {
    if k == 0 {
      assert Below(blocks, k) == {} && RenamedSet(perm, Below(blocks, k)) == {};
    } else {
      var below := Below(blocks, k - 1);
      RenamedSize(perm, blocks, k - 1);
      if k - 1 in blocks {
        assert Below(blocks, k) == below + {k - 1};
        RenamedApart(|perm|, perm, below, k - 1);
      } else {
        assert Below(blocks, k) == below;
      }
    }
  }

  /** The blocks a net connects in the end: the renamed blocks of its free pins and the
      blocks of its fixed pins. */
  lemma FinalBlocks(pins: set<nat>, part: Partition, fixedPart: Partition, k: nat, perm: seq<nat>)
    requires IsPermutation(k, perm) && PinsSplit(pins, part, fixedPart, k)
    ensures Blocks(pins, Final(part, fixedPart, perm))
         == RenamedSet(perm, FreeBlocks(pins, part, fixedPart)) + FixedBlocks(pins, fixedPart)
  {
    var final, free := Final(part, fixedPart, perm), FreeBlocks(pins, part, fixedPart);
    forall b | b in Blocks(pins, final) ensures b in RenamedSet(perm, free) + FixedBlocks(pins, fixedPart) {
      var p :| p in pins && BlockOf(final, p) == b;
      if IsFixed(fixedPart, p) {
        assert p in FixedPins(pins, fixedPart);
      } else {
        assert p in FreePins(pins, fixedPart) && BlockOf(part, p) in free;
      }
    }
    forall b | b in RenamedSet(perm, free) ensures b in Blocks(pins, final) {
      var c :| c in free && Renamed(perm, c) == b;
      var p :| p in FreePins(pins, fixedPart) && BlockOf(part, p) == c;
      assert BlockOf(final, p) == b;
    }
    forall b | b in FixedBlocks(pins, fixedPart) ensures b in Blocks(pins, final) {
      var p :| p in FixedPins(pins, fixedPart) && BlockOf(fixedPart, p) == b;
      assert BlockOf(final, p) == b;
    }
  }

  /** Sum over j < k of 1 where j is a block of the free pins that is renamed to a block of
      the fixed pins: how many blocks the two have in common in the end. */
  function Meetings(free: set<int>, fixed: set<int>, perm: seq<nat>, k: nat): seq<int>
    requires k <= |perm|
  {
    seq(k, j requires 0 <= j < k => if j in free && perm[j] in fixed then 1 else 0)
  }

  lemma {:induction false} MeetingsCount(free: set<int>, fixed: set<int>, perm: seq<nat>, k: nat)
    requires IsPermutation(|perm|, perm) && k <= |perm|
    ensures Sum(Meetings(free, fixed, perm, k)) == |RenamedSet(perm, Below(free, k)) * fixed|
  {
    if k == 0 {
      assert RenamedSet(perm, Below(free, k)) * fixed == {};
    } else {
      MeetingsCount(free, fixed, perm, k - 1);
      assert Meetings(free, fixed, perm, k)[..k - 1] == Meetings(free, fixed, perm, k - 1);
      OneMoreMeeting(free, fixed, perm, k - 1);
    }
  }

  lemma OneMoreMeeting(free: set<int>, fixed: set<int>, perm: seq<nat>, j: nat)
    requires IsPermutation(|perm|, perm) && j < |perm|
    ensures |RenamedSet(perm, Below(free, j + 1)) * fixed|
         == |RenamedSet(perm, Below(free, j)) * fixed| + if j in free && perm[j] in fixed then 1 else 0
  {
    var below := RenamedSet(perm, Below(free, j));
    if j in free {
      assert Below(free, j + 1) == Below(free, j) + {j};
      RenamedApart(|perm|, perm, Below(free, j), j);
      if perm[j] in fixed {
        assert (below + {perm[j] as int}) * fixed == below * fixed + {perm[j] as int};
      } else {
        assert (below + {perm[j] as int}) * fixed == below * fixed;
      }
    } else {
      assert Below(free, j + 1) == Below(free, j);
    }
  }

  /** The number of blocks a net connects in the end. */
  lemma FinalConnectivity(pins: set<nat>, part: Partition, fixedPart: Partition, k: nat, perm: seq<nat>)
    requires IsPermutation(k, perm) && PinsSplit(pins, part, fixedPart, k)
    ensures var free, fixed := FreeBlocks(pins, part, fixedPart), FixedBlocks(pins, fixedPart);
            |Blocks(pins, Final(part, fixedPart, perm))| + Sum(Meetings(free, fixed, perm, k)) == |free| + |fixed|
  {
    var free, fixed := FreeBlocks(pins, part, fixedPart), FixedBlocks(pins, fixedPart);
    FinalBlocks(pins, part, fixedPart, k, perm);
    forall b | b in free ensures 0 <= b < k {
      var p :| p in FreePins(pins, fixedPart) && BlockOf(part, p) == b;
    }
    RenamedSize(perm, free, k);
    MeetingsCount(free, fixed, perm, k);
    assert Below(free, k) == free;
    var renamed := RenamedSet(perm, free);
    assert |renamed + fixed| + |renamed * fixed| == |renamed| + |fixed|;
  }

  /** What net n adds to the weight of the pair of fixed block i and block j. */
  function PairWeight(obj: Objective, n: Net, part: Partition, fixedPart: Partition, i: int, j: int): int {
    var free, fixed := FreeBlocks(n.pins, part, fixedPart), FixedBlocks(n.pins, fixedPart);
    if n.enabled && i in fixed && j in free && (obj.CUT? ==> |free| == 1 && |fixed| == 1) then n.weight else 0
  }

  /** What n costs if none of its free blocks meets one of its fixed blocks. */
  function UpperOfNet(obj: Objective, n: Net, part: Partition, fixedPart: Partition): int {
    var most := |FreeBlocks(n.pins, part, fixedPart)| + |FixedBlocks(n.pins, fixedPart)|;
    if n.enabled && most > 1 then if obj.KM1? then (most - 1) * n.weight else n.weight else 0
  }

  function PairWeights(obj: Objective, n: Net, part: Partition, fixedPart: Partition, perm: seq<nat>): seq<int> {
    seq(|perm|, j requires 0 <= j < |perm| => PairWeight(obj, n, part, fixedPart, perm[j], j))
  }

  lemma {:induction false} ScaledSum(s: seq<int>, t: seq<int>, w: int)
    requires |s| == |t| && forall i | 0 <= i < |s| :: t[i] == s[i] * w
    ensures Sum(t) == Sum(s) * w
  {
    if s != [] {
      var n := |s| - 1;
      ScaledSum(s[..n], t[..n], w);
      assert Sum(t) == Sum(s[..n]) * w + s[n] * w;
    }
  }

  lemma FinalKm1(n: Net, part: Partition, fixedPart: Partition, k: nat, perm: seq<nat>)
    requires IsPermutation(k, perm) && n.enabled && PinsSplit(n.pins, part, fixedPart, k)
    ensures ObjectiveOfNet(KM1, n, Final(part, fixedPart, perm))
         == UpperOfNet(KM1, n, part, fixedPart) - Sum(PairWeights(KM1, n, part, fixedPart, perm))
  {
    var free, fixed := FreeBlocks(n.pins, part, fixedPart), FixedBlocks(n.pins, fixedPart);
    FinalConnectivity(n.pins, part, fixedPart, k, perm);
    var meetings, c := Sum(Meetings(free, fixed, perm, k)), |Blocks(n.pins, Final(part, fixedPart, perm))|;
    ScaledSum(Meetings(free, fixed, perm, k), PairWeights(KM1, n, part, fixedPart, perm), n.weight);
    if p :| p in n.pins {
      assert BlockOf(Final(part, fixedPart, perm), p) in Blocks(n.pins, Final(part, fixedPart, perm));
      assert c >= 1;
      assert c - 1 == |free| + |fixed| - 1 - meetings;
      Distributes(|free| + |fixed| - 1, meetings, n.weight);
      MeetingsBounded(free, fixed, perm, k);
    } else {
      assert FreePins(n.pins, fixedPart) == {} && FixedPins(n.pins, fixedPart) == {};
      assert free == {} && fixed == {};
      assert Blocks(n.pins, Final(part, fixedPart, perm)) == {};
    }
  }

  lemma MeetingsBounded(free: set<int>, fixed: set<int>, perm: seq<nat>, k: nat)
    requires k <= |perm|
    ensures 0 <= Sum(Meetings(free, fixed, perm, k))
  {
    SumConstant(seq(k, _ => 0), 0);
    SumMonotone(seq(k, _ => 0), Meetings(free, fixed, perm, k));
  }

  lemma FinalCut(n: Net, part: Partition, fixedPart: Partition, k: nat, perm: seq<nat>)
    requires IsPermutation(k, perm) && n.enabled && PinsSplit(n.pins, part, fixedPart, k)
    ensures ObjectiveOfNet(CUT, n, Final(part, fixedPart, perm))
         == UpperOfNet(CUT, n, part, fixedPart) - Sum(PairWeights(CUT, n, part, fixedPart, perm))
  {
    var free, fixed := FreeBlocks(n.pins, part, fixedPart), FixedBlocks(n.pins, fixedPart);
    var final := Final(part, fixedPart, perm);
    FinalConnectivity(n.pins, part, fixedPart, k, perm);
    var meetings, c := Sum(Meetings(free, fixed, perm, k)), |Blocks(n.pins, final)|;
    if |free| == 1 && |fixed| == 1 {
      ScaledSum(Meetings(free, fixed, perm, k), PairWeights(CUT, n, part, fixedPart, perm), n.weight);
      FinalBlocks(n.pins, part, fixedPart, k, perm);
      SubsetSize(fixed, Blocks(n.pins, final));
      MeetingsBounded(free, fixed, perm, k);
      assert meetings == 0 || meetings == 1;
    } else {
      SumConstant(PairWeights(CUT, n, part, fixedPart, perm), 0);
      FinalBlocks(n.pins, part, fixedPart, k, perm);
      forall b | b in free ensures 0 <= b < k {
        var p :| p in FreePins(n.pins, fixedPart) && BlockOf(part, p) == b;
      }
      RenamedSize(perm, free, k);
      assert Below(free, k) == free;
      SubsetSize(fixed, Blocks(n.pins, final));
      SubsetSize(RenamedSet(perm, free), Blocks(n.pins, final));
      MeetingsBounded(free, fixed, perm, k);
    }
  }

  lemma FinalOfNet(obj: Objective, n: Net, part: Partition, fixedPart: Partition, k: nat, perm: seq<nat>)
    requires IsPermutation(k, perm) && (n.enabled ==> PinsSplit(n.pins, part, fixedPart, k))
    ensures ObjectiveOfNet(obj, n, Final(part, fixedPart, perm))
         == UpperOfNet(obj, n, part, fixedPart) - Sum(PairWeights(obj, n, part, fixedPart, perm))
  {
    if !n.enabled {
      SumConstant(PairWeights(obj, n, part, fixedPart, perm), 0);
    } else if obj.KM1? {
      FinalKm1(n, part, fixedPart, k, perm);
    } else {
      FinalCut(n, part, fixedPart, k, perm);
    }
  }

  // -------------------------------------------------------- the whole hypergraph

  /** The weight of the pair of fixed block i and block j, over all nets. */
  function PairTotal(obj: Objective, h: Hypergraph, part: Partition, fixedPart: Partition, i: int, j: int): int {
    Sum(seq(|h.nets|, e requires 0 <= e < |h.nets| => PairWeight(obj, h.nets[e], part, fixedPart, i, j)))
  }

  function PairTotals(obj: Objective, h: Hypergraph, part: Partition, fixedPart: Partition, perm: seq<nat>): seq<int> {
    seq(|perm|, j requires 0 <= j < |perm| => PairTotal(obj, h, part, fixedPart, perm[j], j))
  }

  /** The objective if no renamed block met a fixed one. */
  function Upper(obj: Objective, h: Hypergraph, part: Partition, fixedPart: Partition): int {
    Sum(seq(|h.nets|, e requires 0 <= e < |h.nets| => UpperOfNet(obj, h.nets[e], part, fixedPart)))
  }

  lemma ObjectiveIsSum(obj: Objective, h: Hypergraph, part: Partition)
    ensures ObjectiveOf(obj, h, part)
         == Sum(seq(|h.nets|, e requires 0 <= e < |h.nets| => ObjectiveOfNet(obj, h.nets[e], part)))
  {
    if obj.KM1? {
      assert seq(|h.nets|, e requires 0 <= e < |h.nets| => ObjectiveOfNet(obj, h.nets[e], part))
          == seq(|h.nets|, e requires 0 <= e < |h.nets| => Km1OfNet(h.nets[e], part));
    } else {
      assert seq(|h.nets|, e requires 0 <= e < |h.nets| => ObjectiveOfNet(obj, h.nets[e], part))
          == seq(|h.nets|, e requires 0 <= e < |h.nets| => CutOfNet(h.nets[e], part));
    }
  }

  /** Net by net, what the net adds to the weight of each matched pair. */
  function PairMatrix(obj: Objective, h: Hypergraph, part: Partition, fixedPart: Partition,
                      perm: seq<nat>): (m: seq<seq<int>>)
    ensures |m| == |h.nets| && forall e {:trigger m[e]} | 0 <= e < |m| ::
              m[e] == PairWeights(obj, h.nets[e], part, fixedPart, perm)
  {
    seq(|h.nets|, e requires 0 <= e < |h.nets| => PairWeights(obj, h.nets[e], part, fixedPart, perm))
  }

  /** The matched pairs may be added up pair by pair or net by net. */
  lemma PairsByNet(obj: Objective, h: Hypergraph, part: Partition, fixedPart: Partition, perm: seq<nat>)
    ensures Sum(PairTotals(obj, h, part, fixedPart, perm)) == Sum(RowSums(PairMatrix(obj, h, part, fixedPart, perm)))
  {
    var m := PairMatrix(obj, h, part, fixedPart, perm);
    SumColumns(m, |perm|);
    forall j | 0 <= j < |perm| ensures Sum(Column(m, j)) == PairTotal(obj, h, part, fixedPart, perm[j], j) {
      assert Column(m, j)
          == seq(|h.nets|, e requires 0 <= e < |h.nets| => PairWeight(obj, h.nets[e], part, fixedPart, perm[j], j));
    }
    assert ColumnSums(m, |perm|) == PairTotals(obj, h, part, fixedPart, perm);
  }

  /** Whatever the permutation, the final objective is the upper bound less the weights of
      the pairs that the permutation matches. */
  lemma ObjectiveIsUpperLessPairs(obj: Objective, h: Hypergraph, part: Partition, fixedPart: Partition, k: nat,
                                  perm: seq<nat>)
    requires Valid(h) && Splits(h, part, fixedPart, k) && IsPermutation(k, perm)
    ensures ObjectiveOf(obj, h, Final(part, fixedPart, perm))
         == Upper(obj, h, part, fixedPart) - Sum(PairTotals(obj, h, part, fixedPart, perm))
  {
    var final := Final(part, fixedPart, perm);
    var pairs := RowSums(PairMatrix(obj, h, part, fixedPart, perm));
    var finals := seq(|h.nets|, e requires 0 <= e < |h.nets| => ObjectiveOfNet(obj, h.nets[e], final));
    var uppers := seq(|h.nets|, e requires 0 <= e < |h.nets| => UpperOfNet(obj, h.nets[e], part, fixedPart));
    forall e | 0 <= e < |h.nets| ensures uppers[e] == finals[e] + pairs[e] {
      if h.nets[e].enabled {
        NetPinsSplit(h, part, fixedPart, k, e);
      }
      FinalOfNet(obj, h.nets[e], part, fixedPart, k, perm);
    }
    SumAdd(finals, pairs, uppers);
    ObjectiveIsSum(obj, h, final);
    PairsByNet(obj, h, part, fixedPart, perm);
  }

  // --------------------------------------------------- permutations and matchings

  /** The matching that pairs every block with the fixed block it is renamed to. */
  function MatchingOf(perm: seq<nat>): seq<Edge> {
    seq(|perm|, j requires 0 <= j < |perm| => (perm[j], j))
  }

  lemma PermutationMatches(k: nat, perm: seq<nat>)
    requires IsPermutation(k, perm)
    ensures IsPerfect(k, MatchingOf(perm))
  {}

  /** perm renames every block as the matching m says. */
  ghost predicate Follows(perm: seq<nat>, m: seq<Edge>) {
    forall a {:trigger m[a]} | 0 <= a < |m| :: m[a].1 < |perm| && perm[m[a].1] == m[a].0
  }

  lemma MatchingPermutes(k: nat, m: seq<Edge>, perm: seq<nat>)
    requires IsPerfect(k, m) && |perm| == k && Follows(perm, m)
    ensures IsPermutation(k, perm)
  {
    forall i, j | 0 <= i < j < k ensures perm[i] != perm[j] {
      var a := MatchedAt(k, m, i);
      var b := MatchedAt(k, m, j);
      assert if a < b then m[a].0 != m[b].0 else m[b].0 != m[a].0;
    }
    forall j | 0 <= j < k ensures perm[j] < k {
      var a := MatchedAt(k, m, j);
    }
  }

  /** A perfect matching matches every right vertex. */
  lemma MatchedAt(k: nat, m: seq<Edge>, j: nat) returns (a: nat)
    requires IsPerfect(k, m) && j < k
    ensures a < |m| && m[a].1 == j
  {
    Pigeonhole(Rights(m), k, j);
    a :| a < |Rights(m)| && Rights(m)[a] == j;
  }

  lemma SameWeight(g: Matrix, m: seq<Edge>, perm: seq<nat>)
    requires Square(g, |g|) && IsPerfect(|g|, m) && IsPermutation(|g|, perm) && Follows(perm, m)
    ensures MatchingWeight(g, m) == MatchingWeight(g, MatchingOf(perm))
  {
    var s := seq(|perm|, j requires 0 <= j < |perm| => g[perm[j]][j]);
    PermutedSum(s, Rights(m));
    assert Select(s, Rights(m)) == seq(|m|, a requires 0 <= a < |m| => g[m[a].0][m[a].1]);
    var p := MatchingOf(perm);
    assert s == seq(|p|, a requires 0 <= a < |p| => g[p[a].0][p[a].1]);
  }

  // ------------------------------------------------------------------- balance

  /** The weights that decide which pairs are discarded: of the nodes fixed to each block,
      of each block of free nodes, and the largest each block may have. */
  datatype Weights = Weights(fixed: seq<int>, free: seq<int>, max: seq<int>)

  predicate SizedFor(w: Weights, k: nat) {
    |w.fixed| == |w.free| == |w.max| == k
  }

  predicate Discarded(w: Weights, i: nat, j: nat)
    requires i < |w.fixed| && i < |w.max| && j < |w.free|
  {
    w.fixed[i] + w.free[j] > w.max[i]
  }

  ghost predicate Avoids(w: Weights, k: nat, perm: seq<nat>)
    requires SizedFor(w, k) && IsPermutation(k, perm)
  {
    forall j {:trigger perm[j]} | 0 <= j < k :: !Discarded(w, perm[j], j)
  }

  function NetWeights(h: Hypergraph): seq<int> {
    seq(|h.nets|, e requires 0 <= e < |h.nets| => if h.nets[e].enabled then h.nets[e].weight else 0)
  }

  function NetWeight(h: Hypergraph): int {
    Sum(NetWeights(h))
  }

  /** The matrix over which the matching is computed. */
  ghost predicate IsMatchingGraph(g: Matrix, obj: Objective, h: Hypergraph, part: Partition, fixedPart: Partition,
                                  w: Weights) {
    && Square(g, |g|) && SizedFor(w, |g|)
    && forall i, j {:trigger g[i][j]} | 0 <= i < |g| && 0 <= j < |g| ::
         g[i][j] == if Discarded(w, i, j) then -NetWeight(h) else PairTotal(obj, h, part, fixedPart, i, j)
  }

  /** The weight of a permutation that uses no discarded pair. */
  /** What it is worth to move free block j to fixed block i. */
  function PairValue(obj: Objective, h: Hypergraph, part: Partition, fixedPart: Partition, w: Weights, i: nat,
                     j: nat): int
    requires i < |w.fixed| && i < |w.max| && j < |w.free|
  {
    if Discarded(w, i, j) then -NetWeight(h) else PairTotal(obj, h, part, fixedPart, i, j)
  }

  /** The weight of a permutation: what it is worth to move every free block where it goes. */
  ghost function PermutationWeight(obj: Objective, h: Hypergraph, part: Partition, fixedPart: Partition, w: Weights,
                                   perm: seq<nat>): int
    requires SizedFor(w, |perm|) && IsPermutation(|perm|, perm)
  {
    Sum(seq(|perm|, j requires 0 <= j < |perm| => PairValue(obj, h, part, fixedPart, w, perm[j], j)))
  }

  lemma WeightOfMatched(g: Matrix, obj: Objective, h: Hypergraph, part: Partition, fixedPart: Partition, w: Weights,
                        perm: seq<nat>)
    requires IsMatchingGraph(g, obj, h, part, fixedPart, w) && IsPermutation(|g|, perm)
    ensures MatchingWeight(g, MatchingOf(perm)) == PermutationWeight(obj, h, part, fixedPart, w, perm)
  {
    var p := MatchingOf(perm);
    assert seq(|p|, a requires 0 <= a < |p| => g[p[a].0][p[a].1])
        == seq(|perm|, j requires 0 <= j < |perm| => PairValue(obj, h, part, fixedPart, w, perm[j], j));
  }

  /** No permutation weighs more. */
  ghost predicate IsHeaviest(obj: Objective, h: Hypergraph, part: Partition, fixedPart: Partition, w: Weights,
                             perm: seq<nat>)
    requires SizedFor(w, |perm|) && IsPermutation(|perm|, perm)
  {
    forall other {:trigger IsPermutation(|perm|, other)} | IsPermutation(|perm|, other) ::
      PermutationWeight(obj, h, part, fixedPart, w, other) <= PermutationWeight(obj, h, part, fixedPart, w, perm)
  }

  /** The permutation read off a matching of maximum weight is the heaviest. */
  lemma MatchingIsHeaviest(g: Matrix, obj: Objective, h: Hypergraph, part: Partition, fixedPart: Partition, w: Weights,
                           m: seq<Edge>, perm: seq<nat>)
    requires IsMatchingGraph(g, obj, h, part, fixedPart, w) && IsMaximumWeight(g, m)
    requires IsPermutation(|g|, perm) && Follows(perm, m)
    ensures IsHeaviest(obj, h, part, fixedPart, w, perm)
  {
    SameWeight(g, m, perm);
    WeightOfMatched(g, obj, h, part, fixedPart, w, perm);
    forall other | IsPermutation(|g|, other)
      ensures PermutationWeight(obj, h, part, fixedPart, w, other) <= PermutationWeight(obj, h, part, fixedPart, w,
              perm)
    {
      PermutationMatches(|g|, other);
      WeightOfMatched(g, obj, h, part, fixedPart, w, other);
    }
  }

  lemma WeightOfPermutation(g: Matrix, obj: Objective, h: Hypergraph, part: Partition, fixedPart: Partition,
                            w: Weights, perm: seq<nat>)
    requires IsMatchingGraph(g, obj, h, part, fixedPart, w) && IsPermutation(|g|, perm) && Avoids(w, |g|, perm)
    ensures MatchingWeight(g, MatchingOf(perm)) == Sum(PairTotals(obj, h, part, fixedPart, perm))
  {
    var p := MatchingOf(perm);
    forall j | 0 <= j < |p| ensures g[p[j].0][p[j].1] == PairTotal(obj, h, part, fixedPart, perm[j], j) {
      assert !Discarded(w, perm[j], j);
    }
    assert seq(|p|, a requires 0 <= a < |p| => g[p[a].0][p[a].1]) == PairTotals(obj, h, part, fixedPart, perm);
  }

  /** Of all permutations without discarded pairs the one that follows a maximum-weight
      matching, if it has none itself, minimises the final objective. */
  lemma MatchingMinimisesObjective(g: Matrix, obj: Objective, h: Hypergraph, part: Partition, fixedPart: Partition,
                                   w: Weights, m: seq<Edge>, perm: seq<nat>, other: seq<nat>)
    requires Valid(h) && Splits(h, part, fixedPart, |g|)
    requires IsMatchingGraph(g, obj, h, part, fixedPart, w) && IsMaximumWeight(g, m)
    requires |perm| == |g| && Follows(perm, m) && IsPermutation(|g|, other)
    ensures IsPermutation(|g|, perm)
    ensures Avoids(w, |g|, perm) && Avoids(w, |g|, other) ==>
              ObjectiveOf(obj, h, Final(part, fixedPart, perm)) <= ObjectiveOf(obj, h, Final(part, fixedPart, other))
  {
    MatchingPermutes(|g|, m, perm);
    if Avoids(w, |g|, perm) && Avoids(w, |g|, other) {
      SameWeight(g, m, perm);
      PermutationMatches(|g|, other);
      assert MatchingWeight(g, MatchingOf(other)) <= MatchingWeight(g, m);
      WeightOfPermutation(g, obj, h, part, fixedPart, w, perm);
      WeightOfPermutation(g, obj, h, part, fixedPart, w, other);
      ObjectiveIsUpperLessPairs(obj, h, part, fixedPart, |g|, perm);
      ObjectiveIsUpperLessPairs(obj, h, part, fixedPart, |g|, other);
    }
  }

  /** Renamed block j weighs what it weighed before, and the nodes fixed to its new name. */
  lemma FinalBlockWeight(h: Hypergraph, part: Partition, fixedPart: Partition, k: nat, perm: seq<nat>, j: nat)
    requires Splits(h, part, fixedPart, k) && IsPermutation(k, perm) && j < k
    ensures BlockWeight(h, Final(part, fixedPart, perm), perm[j])
         == BlockWeight(h, part, j) + BlockWeight(h, fixedPart, perm[j])
  {
    var final := Final(part, fixedPart, perm);
    var free := seq(|h.nodes|, v requires 0 <= v < |h.nodes| => WeightIn(h, part, j, v));
    var fixed := seq(|h.nodes|, v requires 0 <= v < |h.nodes| => WeightIn(h, fixedPart, perm[j], v));
    var both := seq(|h.nodes|, v requires 0 <= v < |h.nodes| => WeightIn(h, final, perm[j], v));
    forall v | 0 <= v < |h.nodes| ensures both[v] == free[v] + fixed[v] {
      if h.nodes[v].enabled && !IsFixed(fixedPart, v) {
        assert 0 <= part[v] < k;
        assert perm[part[v]] == perm[j] ==> part[v] == j;
      }
    }
    SumAdd(free, fixed, both);
  }

  ghost predicate Balanced(h: Hypergraph, part: Partition, max: seq<int>) {
    forall i {:trigger max[i]} | 0 <= i < |max| :: BlockWeight(h, part, i) <= max[i]
  }

  /** Some relabelling is balanced. */
  ghost predicate CanBalance(h: Hypergraph, part: Partition, fixedPart: Partition, k: nat, max: seq<int>) {
    exists perm {:trigger IsPermutation(k, perm)} ::
           IsPermutation(k, perm) && Balanced(h, Final(part, fixedPart, perm), max)
  }

  /** A permutation gives a balanced partition exactly when it uses no discarded pair. */
  lemma BalancedIffAvoids(h: Hypergraph, part: Partition, fixedPart: Partition, k: nat, w: Weights, perm: seq<nat>)
    requires Splits(h, part, fixedPart, k) && IsPermutation(k, perm) && SizedFor(w, k)
    requires forall j {:trigger w.free[j]} | 0 <= j < k :: w.free[j] == BlockWeight(h, part, j)
    requires forall i {:trigger w.fixed[i]} | 0 <= i < k :: w.fixed[i] == BlockWeight(h, fixedPart, i)
    ensures Balanced(h, Final(part, fixedPart, perm), w.max) <==> Avoids(w, k, perm)
  {
    forall j | 0 <= j < k
      ensures BlockWeight(h, Final(part, fixedPart, perm), perm[j]) <= w.max[perm[j]] <==> !Discarded(w, perm[j], j)
    {
      FinalBlockWeight(h, part, fixedPart, k, perm, j);
      assert w.free[j] == BlockWeight(h, part, j) && w.fixed[perm[j]] == BlockWeight(h, fixedPart, perm[j]);
    }
    if Avoids(w, k, perm) {
      forall i: nat | i < k ensures BlockWeight(h, Final(part, fixedPart, perm), i) <= w.max[i] {
        Pigeonhole(perm, k, i);
        var j :| 0 <= j < |perm| && perm[j] == i;
        assert !Discarded(w, perm[j], j);
      }
    }
  }

  // ------------------------------------------------ when discarding is effective

  /** The most that net n can add to the weight of a matching. */
  function OverlapOfNet(obj: Objective, n: Net, part: Partition, fixedPart: Partition): int {
    var free, fixed := |FreeBlocks(n.pins, part, fixedPart)|, |FixedBlocks(n.pins, fixedPart)|;
    if !n.enabled || (obj.CUT? && (free != 1 || fixed != 1)) then 0
    else if free <= fixed then free * n.weight else fixed * n.weight
  }

  function Overlap(obj: Objective, h: Hypergraph, part: Partition, fixedPart: Partition): int {
    Sum(seq(|h.nets|, e requires 0 <= e < |h.nets| => OverlapOfNet(obj, h.nets[e], part, fixedPart)))
  }

  ghost predicate NonNegativeWeights(h: Hypergraph) {
    forall e {:trigger h.nets[e].weight} | 0 <= e < |h.nets| && h.nets[e].enabled :: 0 <= h.nets[e].weight
  }

  lemma PairsOfNetBounded(obj: Objective, n: Net, part: Partition, fixedPart: Partition, k: nat, perm: seq<nat>)
    requires IsPermutation(k, perm) && (n.enabled ==> 0 <= n.weight)
    ensures Sum(PairWeights(obj, n, part, fixedPart, perm)) <= OverlapOfNet(obj, n, part, fixedPart)
  {
    var free, fixed := FreeBlocks(n.pins, part, fixedPart), FixedBlocks(n.pins, fixedPart);
    if !n.enabled || (obj.CUT? && (|free| != 1 || |fixed| != 1)) {
      SumConstant(PairWeights(obj, n, part, fixedPart, perm), 0);
    } else {
      var meetings := Sum(Meetings(free, fixed, perm, k));
      ScaledSum(Meetings(free, fixed, perm, k), PairWeights(obj, n, part, fixedPart, perm), n.weight);
      MeetingsCount(free, fixed, perm, k);
      RenamedSize(perm, free, k);
      SubsetSize(RenamedSet(perm, Below(free, k)) * fixed, RenamedSet(perm, Below(free, k)));
      SubsetSize(RenamedSet(perm, Below(free, k)) * fixed, fixed);
      SubsetSize(Below(free, k), free);
      MultiplesOrdered(n.weight, meetings, if |free| <= |fixed| then |free| else |fixed|);
    }
  }

  lemma PairsBounded(obj: Objective, h: Hypergraph, part: Partition, fixedPart: Partition, k: nat, perm: seq<nat>)
    requires IsPermutation(k, perm) && NonNegativeWeights(h)
    ensures Sum(PairTotals(obj, h, part, fixedPart, perm)) <= Overlap(obj, h, part, fixedPart)
  {
    var m := PairMatrix(obj, h, part, fixedPart, perm);
    forall e | 0 <= e < |h.nets| ensures RowSums(m)[e] <= OverlapOfNet(obj, h.nets[e], part, fixedPart) {
      assert h.nets[e].enabled ==> 0 <= h.nets[e].weight;
      PairsOfNetBounded(obj, h.nets[e], part, fixedPart, k, perm);
    }
    SumMonotone(RowSums(m),
                seq(|h.nets|, e requires 0 <= e < |h.nets| => OverlapOfNet(obj, h.nets[e], part, fixedPart)));
    PairsByNet(obj, h, part, fixedPart, perm);
  }

  lemma PairsNonNegative(obj: Objective, h: Hypergraph, part: Partition, fixedPart: Partition, i: int, j: int)
    requires NonNegativeWeights(h)
    ensures 0 <= PairTotal(obj, h, part, fixedPart, i, j)
  {
    var zeros := seq(|h.nets|, _ => 0);
    SumConstant(zeros, 0);
    forall e | 0 <= e < |h.nets| ensures 0 <= PairWeight(obj, h.nets[e], part, fixedPart, i, j) {
      assert h.nets[e].enabled ==> 0 <= h.nets[e].weight;
    }
    SumMonotone(zeros,
                seq(|h.nets|, e requires 0 <= e < |h.nets| => PairWeight(obj, h.nets[e], part, fixedPart, i, j)));
  }

  /** A discarded pair costs the matching the weight of all nets. */
  lemma DiscardedPairCosts(g: Matrix, obj: Objective, h: Hypergraph, part: Partition, fixedPart: Partition, w: Weights,
                           perm: seq<nat>)
    requires IsMatchingGraph(g, obj, h, part, fixedPart, w) && NonNegativeWeights(h)
    requires IsPermutation(|g|, perm) && !Avoids(w, |g|, perm) && 0 <= NetWeight(h)
    ensures MatchingWeight(g, MatchingOf(perm)) <= Overlap(obj, h, part, fixedPart) - NetWeight(h)
  {
    var p, totals := MatchingOf(perm), PairTotals(obj, h, part, fixedPart, perm);
    var weights := seq(|p|, a requires 0 <= a < |p| => g[p[a].0][p[a].1]);
    var d: nat :| d < |g| && Discarded(w, perm[d], d);
    forall j | 0 <= j < |p| ensures weights[j] <= totals[d := totals[d] - NetWeight(h)][j] {
      PairsNonNegative(obj, h, part, fixedPart, perm[j], j);
      assert g[perm[j]][j] == if Discarded(w, perm[j], j) then -NetWeight(h) else totals[j];
    }
    SumMonotone(weights, totals[d := totals[d] - NetWeight(h)]);
    SumUpdate(totals, d, totals[d] - NetWeight(h));
    PairsBounded(obj, h, part, fixedPart, |g|, perm);
  }

  /** If the nets together weigh more than free and fixed blocks can have in common, a
      matching of maximum weight is balanced whenever a balanced relabelling exists. */
  lemma DiscardingIsEffective(g: Matrix, obj: Objective, h: Hypergraph, part: Partition, fixedPart: Partition,
                              w: Weights, m: seq<Edge>, perm: seq<nat>, balanced: seq<nat>)
    requires IsMatchingGraph(g, obj, h, part, fixedPart, w) && IsMaximumWeight(g, m)
    requires IsPermutation(|g|, perm) && Follows(perm, m)
    requires IsPermutation(|g|, balanced) && Avoids(w, |g|, balanced)
    requires NonNegativeWeights(h) && Overlap(obj, h, part, fixedPart) < NetWeight(h)
    ensures Avoids(w, |g|, perm)
  {
    SameWeight(g, m, perm);
    PermutationMatches(|g|, balanced);
    WeightOfPermutation(g, obj, h, part, fixedPart, w, balanced);
    var zeros, totals := seq(|g|, _ => 0), PairTotals(obj, h, part, fixedPart, balanced);
    SumConstant(zeros, 0);
    forall j | 0 <= j < |g| ensures 0 <= totals[j] {
      PairsNonNegative(obj, h, part, fixedPart, balanced[j], j);
    }
    SumMonotone(zeros, totals);
    if !Avoids(w, |g|, perm) {
      PairsBounded(obj, h, part, fixedPart, |g|, balanced);
      DiscardedPairCosts(g, obj, h, part, fixedPart, w, perm);
    }
  }
}
