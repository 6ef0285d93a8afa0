/** Partitions of an n-level hypergraph into blocks: connectivity, cut and km1 metric,
    block weights and border counts, each defined from scratch, and what contraction
    and its undo do to them. */
module Partitions {
  import opened Sums
  import opened NLevel

  /** The block of each node; INVALID_PARTITION for nodes without one. */
  type Partition = seq<int>

  const INVALID_PARTITION: int := -1

  function BlockOf(part: Partition, p: nat): int {
    if p < |part| then part[p] else INVALID_PARTITION
  }

  /** The blocks that have a pin. */
  function Blocks(pins: set<nat>, part: Partition): set<int> {
    set p | p in pins :: BlockOf(part, p)
  }

  function Connectivity(n: Net, part: Partition): nat {
    |Blocks(n.pins, part)|
  }

  function PinsIn(pins: set<nat>, part: Partition, b: int): set<nat> {
    set p | p in pins && BlockOf(part, p) == b
  }

  function PinCount(pins: set<nat>, part: Partition, b: int): nat {
    |PinsIn(pins, part, b)|
  }

  // -------------------------------------------------------------------- metrics

  /** What a net adds to the cut metric: its weight if it connects several blocks. */
  function CutOfNet(n: Net, part: Partition): int {
    if n.enabled && Connectivity(n, part) > 1 then n.weight else 0
  }

  /** What a net adds to the connectivity metric. */
  function Km1OfNet(n: Net, part: Partition): int {
    if n.enabled && Connectivity(n, part) > 1 then (Connectivity(n, part) - 1) * n.weight else 0
  }

  function Cut(h: Hypergraph, part: Partition): int {
    Sum(seq(|h.nets|, e requires 0 <= e < |h.nets| => CutOfNet(h.nets[e], part)))
  }

  function Km1(h: Hypergraph, part: Partition): int {
    Sum(seq(|h.nets|, e requires 0 <= e < |h.nets| => Km1OfNet(h.nets[e], part)))
  }

  function WeightIn(h: Hypergraph, part: Partition, b: int, v: nat): int {
    if v < |h.nodes| && h.nodes[v].enabled && BlockOf(part, v) == b then h.nodes[v].weight else 0
  }

  function BlockWeight(h: Hypergraph, part: Partition, b: int): int {
    Sum(seq(|h.nodes|, v requires 0 <= v < |h.nodes| => WeightIn(h, part, b, v)))
  }

  function CutNets(h: Hypergraph, part: Partition, v: nat): set<nat>
    requires v < |h.nodes|
  {
    set e | e in h.nodes[v].nets && e < |h.nets| && Connectivity(h.nets[e], part) > 1
  }

  /** The number of nets at v that connect several blocks. */
  function BorderCount(h: Hypergraph, part: Partition, v: nat): nat
    requires v < |h.nodes|
  {
    |CutNets(h, part, v)|
  }

  // -------------------------------------------------------------- parallel nets

  lemma MergeKeepsNetMetrics(h: Hypergraph, r: nat, e: nat, part: Partition)
    requires Parallel(h, r, e)
    ensures var m := Merge(h, r, e);
            && CutOfNet(m.nets[r], part) + CutOfNet(m.nets[e], part)
               == CutOfNet(h.nets[r], part) + CutOfNet(h.nets[e], part)
            && Km1OfNet(m.nets[r], part) + Km1OfNet(m.nets[e], part)
               == Km1OfNet(h.nets[r], part) + Km1OfNet(h.nets[e], part)
            && forall d | 0 <= d < |h.nets| && d != r && d != e :: m.nets[d] == h.nets[d]
  {
    Distributes(h.nets[r].weight, h.nets[e].weight, Connectivity(h.nets[r], part) - 1);
  }

  /** Merging parallel nets changes neither metric of any partition. */
  lemma MergeKeepsMetrics(h: Hypergraph, r: nat, e: nat, part: Partition)
    requires Parallel(h, r, e)
    ensures Cut(Merge(h, r, e), part) == Cut(h, part)
    ensures Km1(Merge(h, r, e), part) == Km1(h, part)
  {
    var m := Merge(h, r, e);
    MergeKeepsNetMetrics(h, r, e, part);
    SumShifted(seq(|h.nets|, d requires 0 <= d < |h.nets| => CutOfNet(h.nets[d], part)),
               seq(|m.nets|, d requires 0 <= d < |m.nets| => CutOfNet(m.nets[d], part)), r, e);
    SumShifted(seq(|h.nets|, d requires 0 <= d < |h.nets| => Km1OfNet(h.nets[d], part)),
               seq(|m.nets|, d requires 0 <= d < |m.nets| => Km1OfNet(m.nets[d], part)), r, e);
  }

  // ----------------------------------------------------------------- projection

  /** Undoing a step puts an uncontracted node into its representative's block. */
  function Project(part: Partition, s: Step): (part': Partition)
    ensures |part'| == |part|
  {
    match s
    case Contraction(u, v) => if u < |part| && v < |part| then part[v := part[u]] else part
    case Removal(_) => part
    case Merger(_, _) => part
  }

  function ProjectAll(part: Partition, run: seq<Step>): (part': Partition)
    ensures |part'| == |part|
  {
    if run == [] then part else Project(ProjectAll(part, run[1..]), run[0])
  }

  /** The node that stands for x once the run is over. */
  function Representative(run: seq<Step>, x: nat): nat {
    if run == [] then x
    else if run[0].Contraction? && run[0].v == x then Representative(run[1..], run[0].u)
    else Representative(run[1..], x)
  }

  lemma {:induction false} RepresentativeEnabled(h: Hypergraph, run: seq<Step>, x: nat)
    requires LegalRun(h, run) && HasNode(h, x)
    ensures HasNode(DoAll(h, run), Representative(run, x))
    decreases |run|
  {
    if run != [] {
      var x' := if run[0].Contraction? && run[0].v == x then run[0].u else x;
      RepresentativeEnabled(Do(h, run[0]), run[1..], x');
    }
  }

  /** Every node ends up in the block of its representative. */
  lemma {:induction false} ProjectedBlock(h: Hypergraph, part: Partition, run: seq<Step>, x: nat)
    requires LegalRun(h, run) && x < |part| && |part| == |h.nodes|
    ensures BlockOf(ProjectAll(part, run), x) == BlockOf(part, Representative(run, x))
    decreases |run|
  {
    if run != [] {
      var x' := if run[0].Contraction? && run[0].v == x then run[0].u else x;
      ProjectedBlock(Do(h, run[0]), part, run[1..], x');
    }
  }

  /** Replacing or joining u by v in the same block leaves the blocks of a net alone. */
  lemma SameBlocks(n: Net, u: nat, v: nat, part: Partition)
    requires u != v && v in n.pins && u < |part| && v < |part|
    ensures Blocks(n.pins, part[v := part[u]]) == Blocks(ContractNet(n, u, v).pins, part)
  {
    var c := ContractNet(n, u, v);
    var part' := part[v := part[u]];
    forall b | b in Blocks(n.pins, part') ensures b in Blocks(c.pins, part) {
      var p :| p in n.pins && BlockOf(part', p) == b;
      assert (if p == v then u else p) in c.pins;
    }
    forall b | b in Blocks(c.pins, part) ensures b in Blocks(n.pins, part') {
      var p :| p in c.pins && BlockOf(part, p) == b;
      assert (if p in n.pins then p else v) in n.pins;
    }
  }

  lemma BlocksIgnoreOthers(pins: set<nat>, part: Partition, v: nat, b: int)
    requires v < |part| && v !in pins
    ensures Blocks(pins, part[v := b]) == Blocks(pins, part)
    ensures forall c :: PinsIn(pins, part[v := b], c) == PinsIn(pins, part, c)
  {
    assert forall p | p in pins :: BlockOf(part[v := b], p) == BlockOf(part, p);
  }

  /** Each enabled net connects the same blocks before contraction and after. */
  lemma ConnectivityProjected(h: Hypergraph, u: nat, v: nat, part: Partition, e: nat)
    requires Valid(h) && HasNode(h, u) && HasNode(h, v) && u != v && |part| == |h.nodes|
    requires HasNet(h, e)
    ensures Blocks(h.nets[e].pins, part[v := part[u]]) == Blocks(Contract(h, u, v).nets[e].pins, part)
  {
    if v in h.nets[e].pins {
      SameBlocks(h.nets[e], u, v, part);
    } else {
      BlocksIgnoreOthers(h.nets[e].pins, part, v, part[u]);
    }
  }

  /** Uncontraction changes neither metric. */
  lemma MetricsProjected(h: Hypergraph, u: nat, v: nat, part: Partition)
    requires Valid(h) && HasNode(h, u) && HasNode(h, v) && u != v && |part| == |h.nodes|
    ensures Cut(h, part[v := part[u]]) == Cut(Contract(h, u, v), part)
    ensures Km1(h, part[v := part[u]]) == Km1(Contract(h, u, v), part)
  {
    var c, part' := Contract(h, u, v), part[v := part[u]];
    forall e | 0 <= e < |h.nets|
      ensures CutOfNet(h.nets[e], part') == CutOfNet(c.nets[e], part)
      ensures Km1OfNet(h.nets[e], part') == Km1OfNet(c.nets[e], part)
    {
      if h.nets[e].enabled {
        ConnectivityProjected(h, u, v, part, e);
      }
    }
    assert seq(|h.nets|, e requires 0 <= e < |h.nets| => CutOfNet(h.nets[e], part'))
        == seq(|c.nets|, e requires 0 <= e < |c.nets| => CutOfNet(c.nets[e], part));
    assert seq(|h.nets|, e requires 0 <= e < |h.nets| => Km1OfNet(h.nets[e], part'))
        == seq(|c.nets|, e requires 0 <= e < |c.nets| => Km1OfNet(c.nets[e], part));
  }

  /** Nor does it change the weight of any block. */
  lemma BlockWeightProjected(h: Hypergraph, u: nat, v: nat, part: Partition, b: int)
    requires Valid(h) && HasNode(h, u) && HasNode(h, v) && u != v && |part| == |h.nodes|
    ensures BlockWeight(h, part[v := part[u]], b) == BlockWeight(Contract(h, u, v), part, b)
  {
    var c, part' := Contract(h, u, v), part[v := part[u]];
    var before := seq(|h.nodes|, x requires 0 <= x < |h.nodes| => WeightIn(h, part', b, x));
    var after := seq(|c.nodes|, x requires 0 <= x < |c.nodes| => WeightIn(c, part, b, x));
    SumUpdate(before, v, 0);
    SumUpdate(before[v := 0], u, WeightIn(c, part, b, u));
    assert after == before[v := 0][u := WeightIn(c, part, b, u)];
  }

  /** The number of enabled nodes in block b. */
  function BlockSize(h: Hypergraph, part: Partition, b: int): int {
    Sum(seq(|h.nodes|, v requires 0 <= v < |h.nodes| => if h.nodes[v].enabled && BlockOf(part, v) == b then 1 else 0))
  }

  /** Uncontraction puts one node more into the block of the representative. */
  lemma BlockSizeProjected(h: Hypergraph, u: nat, v: nat, part: Partition, b: int)
    requires HasNode(h, u) && HasNode(h, v) && u != v && |part| == |h.nodes|
    ensures BlockSize(h, part[v := part[u]], b) == BlockSize(Contract(h, u, v), part, b) + if part[u] == b then 1 else 0
  {
    var c, part' := Contract(h, u, v), part[v := part[u]];
    var before := seq(|h.nodes|, x requires 0 <= x < |h.nodes| =>
                        if h.nodes[x].enabled && BlockOf(part', x) == b then 1 else 0);
    var after := seq(|c.nodes|, x requires 0 <= x < |c.nodes| =>
                       if c.nodes[x].enabled && BlockOf(part, x) == b then 1 else 0);
    SumUpdate(before, v, 0);
    assert after == before[v := 0];
  }

  // --------------------------------------------------------------- whole runs

  /** Every net that the run removes has at most one pin by then. */
  predicate RemovesSinglePinNets(h: Hypergraph, run: seq<Step>)
    requires LegalRun(h, run)
    decreases |run|
  {
    run != [] ==>
      && (run[0].Removal? ==> |h.nets[run[0].e].pins| <= 1)
      && RemovesSinglePinNets(Do(h, run[0]), run[1..])
  }

  lemma FewBlocks(pins: set<nat>, part: Partition)
    requires |pins| <= 1
    ensures |Blocks(pins, part)| <= 1
  {
    if p :| p in pins {
      assert |pins - {p}| == 0;
      assert Blocks(pins, part) == {BlockOf(part, p)};
    }
  }

  /** The nets that the run removes, and those that it merges into nets removed later. */
  function Removed(run: seq<Step>): set<nat> {
    if run == [] then {}
    else
      var later := Removed(run[1..]);
      match run[0]
      case Contraction(_, _) => later
      case Removal(e) => later + {e}
      case Merger(r, e) => if r in later then later + {e} else later
  }

  lemma {:induction false} RemovedWasThere(h: Hypergraph, run: seq<Step>, e: nat)
    requires LegalRun(h, run) && e in Removed(run)
    ensures HasNet(h, e)
    decreases |run|
  {
    if e in Removed(run[1..]) {
      RemovedWasThere(Do(h, run[0]), run[1..], e);
    }
  }

  /** The net that stands for e once the run is over. */
  function Carrier(run: seq<Step>, e: nat): nat {
    if run == [] then e
    else if run[0].Merger? && run[0].e == e then Carrier(run[1..], run[0].r)
    else Carrier(run[1..], e)
  }

  lemma {:induction false} DisabledStays(h: Hypergraph, run: seq<Step>, e: nat)
    requires LegalRun(h, run) && e < |h.nets| && !h.nets[e].enabled
    ensures Carrier(run, e) == e && !HasNet(DoAll(h, run), e) && e !in Removed(run)
    decreases |run|
  {
    if run != [] {
      DisabledStays(Do(h, run[0]), run[1..], e);
    }
  }

  /** A net that is there has the same blocks before a step and after, unless the step takes it away. */
  lemma StepKeepsBlocks(h: Hypergraph, s: Step, part: Partition, e: nat)
    requires Valid(h) && Legal(h, s) && |part| == |h.nodes| && HasNet(Do(h, s), e)
    ensures HasNet(h, e)
    ensures Blocks(h.nets[e].pins, Project(part, s)) == Blocks(Do(h, s).nets[e].pins, part)
  {
    match s
    case Contraction(u, v) => ConnectivityProjected(h, u, v, part, e);
    case Removal(_) =>
    case Merger(_, _) =>
  }

  /** A net has the blocks in the original hypergraph that the net standing for it has in the
      coarsest one, unless that has been removed. */
  lemma {:induction false} NetProjected(h: Hypergraph, run: seq<Step>, part: Partition, e: nat)
    requires Valid(h) && LegalRun(h, run) && |part| == |h.nodes| && HasNet(h, e)
    ensures var c, d := DoAll(h, run), Carrier(run, e);
            && (HasNet(c, d) <==> e !in Removed(run))
            && (HasNet(c, d) ==> Blocks(c.nets[d].pins, part) == Blocks(h.nets[e].pins, ProjectAll(part, run)))
    decreases |run|
  {
    if run != [] {
      var h1 := Do(h, run[0]);
      StepKeepsValid(h, run[0]);
      if HasNet(h1, e) {
        NetProjected(h1, run[1..], part, e);
        StepKeepsBlocks(h, run[0], ProjectAll(part, run[1..]), e);
      } else {
        DisabledStays(h1, run[1..], e);
        if run[0].Merger? {
          NetProjected(h1, run[1..], part, run[0].r);
        }
      }
    }
  }

  /** The metrics of the nets that are not in gone. */
  function CutWithout(h: Hypergraph, part: Partition, gone: set<nat>): int {
    Sum(seq(|h.nets|, e requires 0 <= e < |h.nets| => if e in gone then 0 else CutOfNet(h.nets[e], part)))
  }

  function Km1Without(h: Hypergraph, part: Partition, gone: set<nat>): int {
    Sum(seq(|h.nets|, e requires 0 <= e < |h.nets| => if e in gone then 0 else Km1OfNet(h.nets[e], part)))
  }

  /** What a net contributes before a step other than a merger and after it. */
  lemma StepKeepsNetMetrics(h: Hypergraph, s: Step, part: Partition, gone: set<nat>, gone': set<nat>, e: nat)
    requires Valid(h) && Legal(h, s) && |part| == |h.nodes| && e < |h.nets|
    requires !s.Merger? && gone' == if s.Removal? then gone + {s.e} else gone
    ensures var h1, part1 := Do(h, s), Project(part, s);
            && (if e in gone' then 0 else CutOfNet(h.nets[e], part1))
               == (if e in gone then 0 else CutOfNet(h1.nets[e], part))
            && (if e in gone' then 0 else Km1OfNet(h.nets[e], part1))
               == (if e in gone then 0 else Km1OfNet(h1.nets[e], part))
  {
    if HasNet(Do(h, s), e) {
      StepKeepsBlocks(h, s, part, e);
    }
  }

  lemma StepKeepsMetrics(h: Hypergraph, s: Step, part: Partition, gone: set<nat>, gone': set<nat>)
    requires Valid(h) && Legal(h, s) && |part| == |h.nodes|
    requires !s.Merger? && gone' == if s.Removal? then gone + {s.e} else gone
    ensures CutWithout(h, Project(part, s), gone') == CutWithout(Do(h, s), part, gone)
    ensures Km1Without(h, Project(part, s), gone') == Km1Without(Do(h, s), part, gone)
  {
    var h1, part1 := Do(h, s), Project(part, s);
    StepKeepsValid(h, s);
    forall e | 0 <= e < |h.nets|
      ensures (if e in gone' then 0 else CutOfNet(h.nets[e], part1))
           == (if e in gone then 0 else CutOfNet(h1.nets[e], part))
      ensures (if e in gone' then 0 else Km1OfNet(h.nets[e], part1))
           == (if e in gone then 0 else Km1OfNet(h1.nets[e], part))
    {
      StepKeepsNetMetrics(h, s, part, gone, gone', e);
    }
    assert seq(|h.nets|, e requires 0 <= e < |h.nets| => if e in gone' then 0 else CutOfNet(h.nets[e], part1))
        == seq(|h1.nets|, e requires 0 <= e < |h1.nets| => if e in gone then 0 else CutOfNet(h1.nets[e], part));
    assert seq(|h.nets|, e requires 0 <= e < |h.nets| => if e in gone' then 0 else Km1OfNet(h.nets[e], part1))
        == seq(|h1.nets|, e requires 0 <= e < |h1.nets| => if e in gone then 0 else Km1OfNet(h1.nets[e], part));
  }

  /** A merged net is gone exactly if its representative is. */
  lemma MergerKeepsMetrics(h: Hypergraph, r: nat, e: nat, part: Partition, gone: set<nat>)
    requires Parallel(h, r, e) && e !in gone
    ensures var gone' := if r in gone then gone + {e} else gone;
            && CutWithout(h, part, gone') == CutWithout(Merge(h, r, e), part, gone)
            && Km1Without(h, part, gone') == Km1Without(Merge(h, r, e), part, gone)
  {
    var h1, gone' := Merge(h, r, e), if r in gone then gone + {e} else gone;
    MergeKeepsNetMetrics(h, r, e, part);
    assert (r in gone' <==> r in gone) && (e in gone' <==> r in gone);
    SumShifted(seq(|h.nets|, d requires 0 <= d < |h.nets| => if d in gone' then 0 else CutOfNet(h.nets[d], part)),
               seq(|h1.nets|, d requires 0 <= d < |h1.nets| => if d in gone then 0 else CutOfNet(h1.nets[d], part)), r,
                 e);
    SumShifted(seq(|h.nets|, d requires 0 <= d < |h.nets| => if d in gone' then 0 else Km1OfNet(h.nets[d], part)),
               seq(|h1.nets|, d requires 0 <= d < |h1.nets| => if d in gone then 0 else Km1OfNet(h1.nets[d], part)), r,
                 e);
  }

  /** The quality of a partition of the coarsest hypergraph is the quality of its projection
      to the original one, as far as the nets are concerned that have not been removed. */
  lemma {:induction false} CoarseQualityIsFineQuality(h: Hypergraph, run: seq<Step>, part: Partition)
    requires Valid(h) && LegalRun(h, run) && |part| == |h.nodes|
    ensures Cut(DoAll(h, run), part) == CutWithout(h, ProjectAll(part, run), Removed(run))
    ensures Km1(DoAll(h, run), part) == Km1Without(h, ProjectAll(part, run), Removed(run))
    decreases |run|
  {
    if run == [] {
      UncutDoesNotCount(h, part, {});
    } else {
      var h1, part1, later := Do(h, run[0]), ProjectAll(part, run[1..]), Removed(run[1..]);
      StepKeepsValid(h, run[0]);
      CoarseQualityIsFineQuality(h1, run[1..], part);
      if run[0].Merger? {
        if run[0].e in later {
          RemovedWasThere(h1, run[1..], run[0].e);
        }
        MergerKeepsMetrics(h, run[0].r, run[0].e, part1, later);
      } else {
        StepKeepsMetrics(h, run[0], part1, later, Removed(run));
      }
    }
  }

  /** None of these nets connects several blocks. */
  ghost predicate NoneCut(h: Hypergraph, nets: set<nat>, part: Partition) {
    forall e {:trigger e in nets} | e in nets :: e < |h.nets| && Connectivity(h.nets[e], part) <= 1
  }

  /** What is not cut does not count. */
  lemma UncutDoesNotCount(h: Hypergraph, part: Partition, gone: set<nat>)
    requires NoneCut(h, gone, part)
    ensures CutWithout(h, part, gone) == Cut(h, part) && Km1Without(h, part, gone) == Km1(h, part)
  {
    assert seq(|h.nets|, e requires 0 <= e < |h.nets| => if e in gone then 0 else CutOfNet(h.nets[e], part))
        == seq(|h.nets|, e requires 0 <= e < |h.nets| => CutOfNet(h.nets[e], part));
    forall e | 0 <= e < |h.nets| && e in gone ensures Km1OfNet(h.nets[e], part) == 0 {
      assert Connectivity(h.nets[e], part) <= 1;
    }
    assert seq(|h.nets|, e requires 0 <= e < |h.nets| => if e in gone then 0 else Km1OfNet(h.nets[e], part))
        == seq(|h.nets|, e requires 0 <= e < |h.nets| => Km1OfNet(h.nets[e], part));
  }

  /** The removed nets are cut before a step if and only if those removed later are cut after
      it, or the step removes a net that is cut. */
  lemma NoneCutBefore(h: Hypergraph, run: seq<Step>, part: Partition)
    requires Valid(h) && LegalRun(h, run) && run != [] && |part| == |h.nodes|
    ensures NoneCut(h, Removed(run), Project(part, run[0])) <==>
              && NoneCut(Do(h, run[0]), Removed(run[1..]), part)
              && (run[0].Removal? ==> Connectivity(h.nets[run[0].e], part) <= 1)
  {
    var h1, part', later := Do(h, run[0]), Project(part, run[0]), Removed(run[1..]);
    forall e | e in later
      ensures HasNet(h, e) && HasNet(h1, e)
      ensures Connectivity(h.nets[e], part') == Connectivity(h1.nets[e], part)
    {
      RemovedWasThere(h1, run[1..], e);
      StepKeepsBlocks(h, run[0], part, e);
    }
    assert NoneCut(h, later, part') <==> NoneCut(h1, later, part);
    match run[0] {
      case Contraction(_, _) =>
      case Removal(e) => NoneOfMore(h, later, e, part');
      case Merger(r, e) => NoneOfMore(h, later, e, part');
    }
  }

  lemma NoneOfMore(h: Hypergraph, nets: set<nat>, e: nat, part: Partition)
    requires e < |h.nets|
    ensures NoneCut(h, nets + {e}, part) <==> NoneCut(h, nets, part) && Connectivity(h.nets[e], part) <= 1
  {
    if NoneCut(h, nets + {e}, part) {
      assert e in nets + {e};
      forall d | d in nets ensures d < |h.nets| && Connectivity(h.nets[d], part) <= 1 {
        assert d in nets + {e};
      }
    }
  }

  /** Nets that have at most one pin when they are removed are not cut in the end. */
  lemma {:induction false} SinglePinNetsUncut(h: Hypergraph, run: seq<Step>, part: Partition)
    requires Valid(h) && LegalRun(h, run) && RemovesSinglePinNets(h, run) && |part| == |h.nodes|
    ensures NoneCut(h, Removed(run), ProjectAll(part, run))
    decreases |run|
  {
    if run != [] {
      StepKeepsValid(h, run[0]);
      SinglePinNetsUncut(Do(h, run[0]), run[1..], part);
      NoneCutBefore(h, run, ProjectAll(part, run[1..]));
      if run[0].Removal? {
        FewBlocks(h.nets[run[0].e].pins, ProjectAll(part, run[1..]));
      }
    }
  }

  /** So are the block weights. */
  lemma {:induction false} CoarseBalanceIsFineBalance(h: Hypergraph, run: seq<Step>, part: Partition, b: int)
    requires Valid(h) && LegalRun(h, run) && |part| == |h.nodes|
    ensures BlockWeight(h, ProjectAll(part, run), b) == BlockWeight(DoAll(h, run), part, b)
    decreases |run|
  {
    if run != [] {
      var h1, part1 := Do(h, run[0]), ProjectAll(part, run[1..]);
      StepKeepsValid(h, run[0]);
      CoarseBalanceIsFineBalance(h1, run[1..], part, b);
      if run[0].Contraction? {
        BlockWeightProjected(h, run[0].u, run[0].v, part1, b);
      } else {
        assert seq(|h.nodes|, x requires 0 <= x < |h.nodes| => WeightIn(h, part1, b, x))
            == seq(|h1.nodes|, x requires 0 <= x < |h1.nodes| => WeightIn(h1, part1, b, x));
      }
    }
  }
}
