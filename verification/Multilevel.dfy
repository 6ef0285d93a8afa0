/** The n-level scheme as a whole: coarsen by any run of contractions, net removals and
    mergers of parallel nets, assign blocks to the nodes that are left, undo the run in
    reverse order, and move any nodes in between. */
module Multilevel {
  import opened Sums
  import opened NLevel
  import opened Partitions
  import opened Layout
  import opened PinCounts
  import opened Sizes
  import opened Uncontraction
  import opened Moves
  import opened Construction
  import opened HypergraphClass
  import opened ParallelNets

  ghost predicate Sound(g: GenericHypergraph)
    reads g, g.incidence
  {
    g.Rep() && g.CountsExact() && g.NumbersOf(g.Abs()) && Valid(g.Abs())
  }

  /** No node has a block. */
  ghost predicate Unpartitioned(g: GenericHypergraph)
    reads g, g.incidence
  {
    && Sound(g)
    && g.Part() == Unassigned(|g.hypernodes|)
    && forall b | 0 <= b < |g.partInfo| :: g.partInfo[b] == PartInfo(0, 0)
  }

  /** Every enabled node has a block, and all data on the partition are exact. */
  ghost predicate Partitioned(g: GenericHypergraph)
    reads g, g.incidence
  {
    && Sound(g) && g.PartitionExact()
    && FullyAssigned(g.Abs(), g.Part(), g.k) && BlocksInRange(g.Part(), g.k)
  }

  /** The same with border counters that are off by known amounts. */
  ghost predicate PartitionedBut(g: GenericHypergraph, off: seq<int>)
    reads g, g.incidence
  {
    && Sound(g) && InfoExact(g.Abs(), g.Part(), g.partInfo) && BordersOff(g.Abs(), g.Part(), g.Borders(), off)
    && FullyAssigned(g.Abs(), g.Part(), g.k) && BlocksInRange(g.Part(), g.k)
  }

  /** The border counters are exact if and only if they are off by nothing. */
  lemma PartitionedIff(g: GenericHypergraph, off: seq<int>)
    requires PartitionedBut(g, off)
    ensures Partitioned(g) <==> off == Zeros(|g.hypernodes|)
  {
    var h, part, borders := g.Abs(), g.Part(), g.Borders();
    if off == Zeros(|off|) {
      assert Less(borders, off) == borders;
    } else {
      var x :| 0 <= x < |off| && off[x] != 0;
      assert Less(borders, off)[x] == BorderOf(h, part, x);
    }
  }

  lemma OffByNothing(g: GenericHypergraph)
    requires Partitioned(g)
    ensures PartitionedBut(g, Zeros(|g.hypernodes|))
  {
    assert Less(g.Borders(), Zeros(|g.hypernodes|)) == g.Borders();
  }

  /** What the border counters are off by once a step has been undone: a removed net is
      restored without being counted, a merged one is counted. */
  function MissedBy(off: seq<int>, h: Hypergraph, s: Step, part: Partition): (off': seq<int>)
    requires Legal(h, s)
    ensures |off'| == |off|
  {
    if s.Removal? then Missed(off, h.nets[s.e], part) else off
  }

  /** What the border counters are off by once a run has been undone: every removed net that
      is cut when it is restored has been missed at its pins. */
  ghost function MissedOver(h: Hypergraph, run: seq<Step>, part: Partition): (off: seq<int>)
    requires LegalRun(h, run) && |part| == |h.nodes|
    ensures |off| == |h.nodes|
    decreases |run|
  {
    if run == [] then Zeros(|h.nodes|)
    else
      MissedBy(MissedOver(Do(h, run[0]), run[1..], part), h, run[0], ProjectAll(part, run[1..]))
  }

  /** They are off by nothing if and only if no net that the run removes is cut in the end. */
  lemma {:induction false} MissedNothingIff(h: Hypergraph, run: seq<Step>, part: Partition)
    requires Valid(h) && LegalRun(h, run) && |part| == |h.nodes|
    ensures forall x {:trigger MissedOver(h, run, part)[x]} | 0 <= x < |h.nodes| :: MissedOver(h, run, part)[x] <= 0
    ensures MissedOver(h, run, part) == Zeros(|h.nodes|) <==> NoneCut(h, Removed(run), ProjectAll(part, run))
    decreases |run|
  {
    if run != [] {
      var part1 := ProjectAll(part, run[1..]);
      StepKeepsValid(h, run[0]);
      MissedNothingIff(Do(h, run[0]), run[1..], part);
      NoneCutBefore(h, run, part1);
      if run[0].Removal? {
        MissedAtRemoval(h, run[0].e, part1, MissedOver(Do(h, run[0]), run[1..], part));
      }
    }
  }

  lemma MissedAtRemoval(h: Hypergraph, e: nat, part: Partition, off: seq<int>)
    requires Valid(h) && HasNet(h, e) && |off| == |h.nodes| == |part|
    requires forall x {:trigger off[x]} | 0 <= x < |off| :: off[x] <= 0
    ensures forall x {:trigger Missed(off, h.nets[e], part)[x]} | 0 <= x < |off| :: Missed(off, h.nets[e], part)[x] <= 0
    ensures Missed(off, h.nets[e], part) == Zeros(|off|) <==> off == Zeros(|off|) && Connectivity(h.nets[e], part) <= 1
  {
    var n, off' := h.nets[e], Missed(off, h.nets[e], part);
    if IsCut(n, part) {
      var b :| b in Blocks(n.pins, part);
      var p :| p in n.pins && BlockOf(part, p) == b;
      assert off'[p] == off[p] - 1 < 0;
    } else {
      assert off' == off;
    }
  }

  /** Does one step of a run. */
  method DoStep(g: GenericHypergraph, s: Step)
    requires Unpartitioned(g) && Legal(g.Abs(), s)
    modifies g, g.incidence
    ensures Unpartitioned(g) && g.Abs() == Do(old(g.Abs()), s) && g.Borders() == old(g.Borders())
  {
    StepKeepsValid(g.Abs(), s);
    ghost var after := Do(g.Abs(), s);
    assert Valid(after);
    match s
    case Contraction(u, v) => var memento := g.Contract(u, v);
    case Removal(e) => g.RemoveEdge(e);
    case Merger(r, e) => MergeNet(g, r, e);
  }

  /** Does the steps of a run, one after the other. */
  method Coarsen(g: GenericHypergraph, run: seq<Step>)
    requires Unpartitioned(g) && LegalRun(g.Abs(), run)
    modifies g, g.incidence
    ensures Unpartitioned(g) && g.Abs() == DoAll(old(g.Abs()), run) && g.Borders() == old(g.Borders())
    decreases |run|
  {
    if run != [] {
      DoStep(g, run[0]);
      Coarsen(g, run[1..]);
    }
  }

  /** The nodes have the same weights and states. */
  ghost predicate SameNodes(h: Hypergraph, h': Hypergraph) {
    && |h.nodes| == |h'.nodes|
    && forall v {:trigger h'.nodes[v]} | 0 <= v < |h.nodes| ::
         h'.nodes[v].weight == h.nodes[v].weight && h'.nodes[v].enabled == h.nodes[v].enabled
  }

  lemma InfoOfSameNodes(h: Hypergraph, h': Hypergraph, part: Partition, info: seq<PartInfo>, k: nat)
    requires SameNodes(h, h') && InfoExact(h', part, info) && FullyAssigned(h', part, k)
    ensures InfoExact(h, part, info) && FullyAssigned(h, part, k)
  {
    forall b | 0 <= b < |info|
      ensures info[b].weight == BlockWeight(h, part, b) && info[b].size == BlockSize(h, part, b)
    {
      assert info[b].weight == BlockWeight(h', part, b);
      assert seq(|h.nodes|, v requires 0 <= v < |h.nodes| => WeightIn(h, part, b, v))
          == seq(|h'.nodes|, v requires 0 <= v < |h'.nodes| => WeightIn(h', part, b, v));
      assert seq(|h.nodes|, v requires 0 <= v < |h.nodes| =>
                   if h.nodes[v].enabled && BlockOf(part, v) == b then 1 else 0)
          == seq(|h'.nodes|, v requires 0 <= v < |h'.nodes| =>
                   if h'.nodes[v].enabled && BlockOf(part, v) == b then 1 else 0);
    }
    forall p | 0 <= p < |h.nodes| && h.nodes[p].enabled ensures 0 <= part[p] < k {
      assert h'.nodes[p].enabled;
    }
  }

  /** The data that Uncontract leaves are those of a partitioned hypergraph. */
  lemma UncontractedIsPartitioned(g: GenericHypergraph, h: Hypergraph, u: nat, v: nat, part: Partition,
                                  info: seq<PartInfo>, off: seq<int>)
    requires Valid(h) && HasNode(h, u) && HasNode(h, v) && u != v
    requires |part| == |h.nodes| && FullyAssigned(Contract(h, u, v), part, g.k) && BlocksInRange(part, g.k)
    requires InfoExact(Contract(h, u, v), part, info)
    requires g.Rep() && g.CountsExact() && g.Abs() == h && g.Part() == part[v := part[u]]
    requires g.partInfo == OneMoreIn(info, part[u]) && BordersOff(h, g.Part(), g.Borders(), off)
    requires g.currentNumHypernodes == NumNodes(Contract(h, u, v).nodes) + 1
    requires g.currentNumHyperedges == NumNets(Contract(h, u, v).nets)
    requires g.currentNumPins == NumPins(h.nets)
    ensures PartitionedBut(g, off)
  {
    UncontractedSizes(h, u, v);
    BlocksOfUncontracted(h, u, v, part, g.k);
    InfoUncontracted(h, u, v, part, info);
  }

  /** Undoes a contraction where nobody is interested in gains. */
  method UncontractNode(g: GenericHypergraph, u: nat, v: nat, ghost h: Hypergraph, ghost off: seq<int>)
    requires g.Contracted(h, u, v, off)
    modifies g, g.incidence
    ensures g.Rep() && g.CountsExact() && g.Abs() == h && g.Part() == old(g.Projected(u, v))
    ensures BordersOff(h, g.Part(), g.Borders(), off)
    ensures g.currentNumHypernodes == old(g.currentNumHypernodes) + 1
            && g.currentNumHyperedges == old(g.currentNumHyperedges)
    ensures g.currentNumPins == NumPins(h.nets)
    ensures g.partInfo == OneMoreIn(old(g.partInfo), old(g.Part()[u]))
  {
    var changeU, changeV := g.Uncontract(u, v, h, off);
  }

  lemma PartitionedIsContracted(g: GenericHypergraph, h: Hypergraph, u: nat, v: nat, off: seq<int>)
    requires Valid(h) && HasNode(h, u) && HasNode(h, v) && u != v
    requires PartitionedBut(g, off) && g.Abs() == Contract(h, u, v)
    ensures g.Contracted(h, u, v, off)
    ensures InfoExact(Contract(h, u, v), g.Part(), g.partInfo)
    ensures g.currentNumHypernodes == NumNodes(Contract(h, u, v).nodes)
            && g.currentNumHyperedges == NumNets(Contract(h, u, v).nets)
  {}

  /** Undoes a contraction; h is the hypergraph before it. */
  method UndoContraction(g: GenericHypergraph, u: nat, v: nat, ghost h: Hypergraph, ghost off: seq<int>)
    requires Valid(h) && HasNode(h, u) && HasNode(h, v) && u != v
    requires PartitionedBut(g, off) && g.Abs() == Contract(h, u, v)
    modifies g, g.incidence
    ensures PartitionedBut(g, off) && g.Abs() == h && g.Part() == old(g.Part())[v := old(g.Part()[u])]
  {
    ghost var part, info := g.Part(), g.partInfo;
    PartitionedIsContracted(g, h, u, v, off);
    UncontractNode(g, u, v, h, off);
    UncontractedIsPartitioned(g, h, u, v, part, info, off);
  }

  /** What removal leaves, and what becomes of the data on the partition once it is undone. */
  lemma RemovalUndone(h: Hypergraph, e: nat, part: Partition, k: nat, info: seq<PartInfo>, borders: seq<int>,
                      off: seq<int>)
    requires Valid(h) && HasNet(h, e)
    requires var r := RemoveEdge(h, e);
             InfoExact(r, part, info) && FullyAssigned(r, part, k) && BordersOff(r, part, borders, off)
    ensures Restorable(RemoveEdge(h, e), e) && RestoreEdge(RemoveEdge(h, e), e) == h
    ensures InfoExact(h, part, info) && FullyAssigned(h, part, k)
    ensures BordersOff(h, part, borders, Missed(off, h.nets[e], part))
  {
    var r := RemoveEdge(h, e);
    RestoreInverts(h, e);
    RemovedIsRestorable(h, e);
    BordersMissed(r, e, part, borders, off);
    InfoOfSameNodes(h, r, part, info, k);
  }

  /** Undoes the removal of a net; h is the hypergraph before it. The border counters miss
      the net if it is cut. */
  method UndoRemoval(g: GenericHypergraph, e: nat, ghost h: Hypergraph, ghost off: seq<int>)
    requires Valid(h) && HasNet(h, e)
    requires PartitionedBut(g, off) && g.Abs() == RemoveEdge(h, e)
    modifies g
    ensures PartitionedBut(g, Missed(off, h.nets[e], g.Part())) && g.Abs() == h && g.Part() == old(g.Part())
  {
    RemovalUndone(h, e, g.Part(), g.k, g.partInfo, g.Borders(), off);
    g.RestoreEdge(e);
  }

  /** What a merger leaves, and what becomes of the data on the partition once it is undone. */
  lemma MergerUndone(h: Hypergraph, r: nat, e: nat, part: Partition, k: nat, info: seq<PartInfo>)
    requires Valid(h) && Parallel(h, r, e)
    requires InfoExact(Merge(h, r, e), part, info) && FullyAssigned(Merge(h, r, e), part, k)
    ensures var m := Merge(h, r, e);
            && Restorable(m, e) && HasNet(m, r) && m.nets[r].pins == m.nets[e].pins && Unmerge(m, r, e) == h
            && Assigned(m.nets[e].pins, part, k)
    ensures InfoExact(h, part, info) && FullyAssigned(h, part, k)
  {
    UnmergeInverts(h, r, e);
    MergedIsRestorable(h, r, e);
    InfoOfSameNodes(h, Merge(h, r, e), part, info, k);
    NetAssigned(h, part, k, e);
  }

  /** Undoes the merger of two parallel nets; h is the hypergraph before it. */
  method UndoMerger(g: GenericHypergraph, r: nat, e: nat, ghost h: Hypergraph, ghost off: seq<int>)
    requires Valid(h) && Parallel(h, r, e)
    requires PartitionedBut(g, off) && g.Abs() == Merge(h, r, e)
    modifies g
    ensures PartitionedBut(g, off) && g.Abs() == h && g.Part() == old(g.Part())
  {
    ghost var part := g.Part();
    MergerUndone(h, r, e, part, g.k, g.partInfo);
    OffByErrors(g.Abs(), part, g.Borders(), off);
    UnmergeNet(g, r, e);
    OffByErrors(h, part, g.Borders(), off);
  }

  /** Undoes a step of a run; h is the hypergraph before it. */
  method UndoStep(g: GenericHypergraph, s: Step, ghost h: Hypergraph, ghost off: seq<int>)
    requires Valid(h) && Legal(h, s)
    requires PartitionedBut(g, off) && g.Abs() == Do(h, s)
    modifies g, g.incidence
    ensures PartitionedBut(g, MissedBy(off, h, s, old(g.Part()))) && g.Abs() == h
            && g.Part() == Project(old(g.Part()), s)
  {
    match s
    case Contraction(u, v) => UndoContraction(g, u, v, h, off);
    case Removal(e) => UndoRemoval(g, e, h, off);
    case Merger(r, e) => UndoMerger(g, r, e, h, off);
  }

  /** Undoes the steps of a run in reverse order; h is the hypergraph before the run. */
  method Uncoarsen(g: GenericHypergraph, run: seq<Step>, ghost h: Hypergraph)
    requires Valid(h) && LegalRun(h, run)
    requires Partitioned(g) && g.Abs() == DoAll(h, run) && |g.Part()| == |h.nodes|
    modifies g, g.incidence
    ensures PartitionedBut(g, MissedOver(h, run, old(g.Part()))) && g.Abs() == h
            && g.Part() == ProjectAll(old(g.Part()), run)
    decreases |run|
  {
    if run == [] {
      OffByNothing(g);
    } else {
      ghost var part := g.Part();
      StepKeepsValid(h, run[0]);
      Uncoarsen(g, run[1..], Do(h, run[0]));
      UndoStep(g, run[0], h, MissedOver(Do(h, run[0]), run[1..], part));
    }
  }

  /** The partition that gives every enabled node its entry in blocks. */
  ghost predicate IsAssignment(h: Hypergraph, blocks: seq<nat>, k: nat) {
    |blocks| == |h.nodes| && forall v {:trigger blocks[v]} | 0 <= v < |h.nodes| && h.nodes[v].enabled :: blocks[v] < k
  }

  /** What the partition looks like once the nodes before v have been dealt with. */
  function AssignedUpTo(h: Hypergraph, blocks: seq<nat>, v: nat): (part: Partition)
    requires |blocks| == |h.nodes|
    ensures |part| == |h.nodes|
  {
    seq(|h.nodes|, x requires 0 <= x < |h.nodes| =>
          if x < v && h.nodes[x].enabled then blocks[x] else INVALID_PARTITION)
  }

  /** The nodes before v have got their blocks. */
  ghost predicate AssigningFrom(g: GenericHypergraph, h: Hypergraph, blocks: seq<nat>, v: nat)
    requires |blocks| == |h.nodes|
    reads g, g.incidence
  {
    && Sound(g) && g.Abs() == h && |g.hypernodes| == |h.nodes|
    && g.Part() == AssignedUpTo(h, blocks, v) && InfoExact(h, g.Part(), g.partInfo)
  }

  /** Gives node v its block, if it is enabled. */
  method AssignNext(g: GenericHypergraph, blocks: seq<nat>, v: nat, ghost h: Hypergraph)
    requires IsAssignment(h, blocks, g.k) && v < |blocks| && AssigningFrom(g, h, blocks, v)
    modifies g
    ensures AssigningFrom(g, h, blocks, v + 1)
  {
    if g.hypernodes[v].valid {
      assert AssignedUpTo(h, blocks, v + 1) == AssignedUpTo(h, blocks, v)[v := blocks[v]];
      assert blocks[v] < g.k;
      g.SetNodePart(v, blocks[v]);
    } else {
      assert AssignedUpTo(h, blocks, v + 1) == AssignedUpTo(h, blocks, v);
    }
  }

  /** Gives every enabled node its block and counts the cut nets. */
  method AssignBlocks(g: GenericHypergraph, blocks: seq<nat>)
    requires Unpartitioned(g) && IsAssignment(g.Abs(), blocks, g.k)
    modifies g
    ensures Partitioned(g) && g.Abs() == old(g.Abs())
    ensures g.Part() == AssignedUpTo(g.Abs(), blocks, |blocks|)
  {
    ghost var h := g.Abs();
    UnassignedInfo(h, |h.nodes|, g.partInfo);
    assert AssignedUpTo(h, blocks, 0) == Unassigned(|h.nodes|);
    for v := 0 to |g.hypernodes|
      invariant AssigningFrom(g, h, blocks, v)
    {
      AssignNext(g, blocks, v, h);
    }
    AssignedIsFull(h, blocks, g.k);
    g.InitializeNumCutHyperedges();
  }

  lemma AssignedIsFull(h: Hypergraph, blocks: seq<nat>, k: nat)
    requires IsAssignment(h, blocks, k)
    ensures FullyAssigned(h, AssignedUpTo(h, blocks, |blocks|), k)
            && BlocksInRange(AssignedUpTo(h, blocks, |blocks|), k)
  {
    forall x | 0 <= x < |blocks| && h.nodes[x].enabled ensures 0 <= AssignedUpTo(h, blocks, |blocks|)[x] < k {
      assert blocks[x] < k;
    }
  }

  /** Every enabled node of the original hypergraph ends up in its representative's block. */
  lemma ProjectedAssignment(h: Hypergraph, run: seq<Step>, blocks: seq<nat>, x: nat)
    requires LegalRun(h, run) && HasNode(h, x)
    requires |blocks| == |h.nodes| == |DoAll(h, run).nodes|
    ensures Representative(run, x) < |blocks|
    ensures var part := AssignedUpTo(DoAll(h, run), blocks, |blocks|);
            BlockOf(ProjectAll(part, run), x) == blocks[Representative(run, x)]
  {
    RepresentativeEnabled(h, run, x);
    ProjectedBlock(h, AssignedUpTo(DoAll(h, run), blocks, |blocks|), run, x);
  }

  /** The n-level scheme: any coarsening, any assignment of blocks to the nodes left, and
      the way back. The hypergraph is as it was, every node is in the block of its
      representative, all block weights and, but for the nets that have been removed, the
      quality of the partition are those of the partition of the coarsest hypergraph. The
      data on the partition are exact, border counters included, if and only if none of the
      removed nets is cut in the end, and then the two partitions are of the same quality. */
  method PartitionMultilevel(g: GenericHypergraph, run: seq<Step>, blocks: seq<nat>)
    returns (ghost h: Hypergraph, ghost coarse: Partition)
    requires Unpartitioned(g) && LegalRun(g.Abs(), run)
    requires IsAssignment(DoAll(g.Abs(), run), blocks, g.k)
    modifies g, g.incidence
    ensures h == old(g.Abs()) && LegalRun(h, run) && |blocks| == |h.nodes| == |DoAll(h, run).nodes|
    ensures coarse == AssignedUpTo(DoAll(h, run), blocks, |blocks|)
    ensures PartitionedBut(g, MissedOver(h, run, coarse)) && g.Abs() == h && g.Part() == ProjectAll(coarse, run)
    ensures forall x: nat | HasNode(h, x) ::
              Representative(run, x) < |blocks| && g.Part()[x] == blocks[Representative(run, x)]
    ensures forall b :: BlockWeight(h, g.Part(), b) == BlockWeight(DoAll(h, run), coarse, b)
    ensures Cut(DoAll(h, run), coarse) == CutWithout(h, g.Part(), Removed(run))
    ensures Km1(DoAll(h, run), coarse) == Km1Without(h, g.Part(), Removed(run))
    ensures Partitioned(g) <==> NoneCut(h, Removed(run), g.Part())
    ensures Partitioned(g) ==>
              Cut(h, g.Part()) == Cut(DoAll(h, run), coarse) && Km1(h, g.Part()) == Km1(DoAll(h, run), coarse)
  {
    h := g.Abs();
    RunKeepsValid(h, run);
    Coarsen(g, run);
    AssignBlocks(g, blocks);
    coarse := g.Part();
    Uncoarsen(g, run, h);
    MultilevelResult(g, h, run, blocks, coarse);
  }

  lemma MultilevelResult(g: GenericHypergraph, h: Hypergraph, run: seq<Step>, blocks: seq<nat>, coarse: Partition)
    requires Valid(h) && LegalRun(h, run) && |blocks| == |h.nodes| == |DoAll(h, run).nodes|
    requires coarse == AssignedUpTo(DoAll(h, run), blocks, |blocks|)
    requires PartitionedBut(g, MissedOver(h, run, coarse)) && g.Abs() == h && g.Part() == ProjectAll(coarse, run)
    ensures forall x: nat | HasNode(h, x) ::
              Representative(run, x) < |blocks| && g.Part()[x] == blocks[Representative(run, x)]
    ensures forall b :: BlockWeight(h, g.Part(), b) == BlockWeight(DoAll(h, run), coarse, b)
    ensures Cut(DoAll(h, run), coarse) == CutWithout(h, g.Part(), Removed(run))
    ensures Km1(DoAll(h, run), coarse) == Km1Without(h, g.Part(), Removed(run))
    ensures Partitioned(g) <==> NoneCut(h, Removed(run), g.Part())
    ensures Partitioned(g) ==>
              Cut(h, g.Part()) == Cut(DoAll(h, run), coarse) && Km1(h, g.Part()) == Km1(DoAll(h, run), coarse)
  {
    CoarseQualityIsFineQuality(h, run, coarse);
    MissedNothingIff(h, run, coarse);
    PartitionedIff(g, MissedOver(h, run, coarse));
    if Partitioned(g) {
      UncutDoesNotCount(h, g.Part(), Removed(run));
    }
    forall b ensures BlockWeight(h, g.Part(), b) == BlockWeight(DoAll(h, run), coarse, b) {
      CoarseBalanceIsFineBalance(h, run, coarse, b);
    }
    forall x: nat | HasNode(h, x)
      ensures Representative(run, x) < |blocks| && g.Part()[x] == blocks[Representative(run, x)]
    {
      ProjectedAssignment(h, run, blocks, x);
    }
  }

  // ------------------------------------------------------------------ refinement

  datatype Move = Move(node: nat, to: nat)

  /** A move that changes anything: the node is there, and in another block. */
  predicate Effective(h: Hypergraph, k: nat, part: Partition, m: Move) {
    HasNode(h, m.node) && m.node < |part| && m.to < k && part[m.node] != m.to
  }

  function MovedBy(h: Hypergraph, k: nat, part: Partition, moves: seq<Move>): (part': Partition)
    ensures |part'| == |part|
  {
    if moves == [] then part
    else
      var before := MovedBy(h, k, part, moves[..|moves| - 1]);
      var m := moves[|moves| - 1];
      if Effective(h, k, before, m) then before[m.node := m.to] else before
  }

  /** Moves one node. */
  method MoveNode(g: GenericHypergraph, m: Move, ghost off: seq<int>)
    requires PartitionedBut(g, off)
    modifies g
    ensures PartitionedBut(g, off) && g.Abs() == old(g.Abs())
    ensures g.Part()
         == if Effective(old(g.Abs()), g.k, old(g.Part()), m) then old(g.Part())[m.node := m.to] else old(g.Part())
  {
    if m.node < |g.hypernodes| && g.hypernodes[m.node].valid && m.to < g.k && g.hypernodes[m.node].partId != m.to {
      ghost var h, part := g.Abs(), g.Part();
      assert 0 <= part[m.node] < g.k;
      OffByErrors(h, part, g.Borders(), off);
      var internal := g.ChangeNodePart(m.node, g.hypernodes[m.node].partId, m.to);
      OffByErrors(h, g.Part(), g.Borders(), off);
    }
  }

  /** Moves nodes one after the other, as refinement does between uncontractions. The border
      counters stay as exact as they were. */
  method Refine(g: GenericHypergraph, moves: seq<Move>, ghost off: seq<int>)
    requires PartitionedBut(g, off)
    modifies g
    ensures PartitionedBut(g, off) && g.Abs() == old(g.Abs())
    ensures g.Part() == MovedBy(old(g.Abs()), g.k, old(g.Part()), moves)
  {
    for i := 0 to |moves|
      invariant PartitionedBut(g, off) && g.Abs() == old(g.Abs())
      invariant g.Part() == MovedBy(old(g.Abs()), g.k, old(g.Part()), moves[..i])
    {
      assert moves[..i + 1][..i] == moves[..i];
      MoveNode(g, moves[i], off);
    }
    assert moves[..|moves|] == moves;
  }

  /** Projection with moves after every step that is undone. */
  ghost function Refined(h: Hypergraph, k: nat, part: Partition, run: seq<Step>,
                         moves: seq<seq<Move>>): (part': Partition)
    requires LegalRun(h, run) && |moves| == |run|
    ensures |part'| == |part|
    decreases |run|
  {
    if run == [] then part
    else MovedBy(h, k, Project(Refined(Do(h, run[0]), k, part, run[1..], moves[1..]), run[0]), moves[0])
  }

  /** What the border counters are off by once a run has been undone with moves in between. */
  ghost function MissedRefined(h: Hypergraph, k: nat, part: Partition, run: seq<Step>,
                               moves: seq<seq<Move>>): (off: seq<int>)
    requires LegalRun(h, run) && |moves| == |run|
    ensures |off| == |h.nodes|
    decreases |run|
  {
    if run == [] then Zeros(|h.nodes|)
    else
      var h1 := Do(h, run[0]);
      MissedBy(MissedRefined(h1, k, part, run[1..], moves[1..]), h, run[0], Refined(h1, k, part, run[1..], moves[1..]))
  }

  /** No removed net is cut at the time when it is restored. */
  ghost predicate NoneCutWhenRestored(h: Hypergraph, k: nat, part: Partition, run: seq<Step>, moves: seq<seq<Move>>)
    requires LegalRun(h, run) && |moves| == |run|
    decreases |run|
  {
    run != [] ==>
      var h1 := Do(h, run[0]);
      && NoneCutWhenRestored(h1, k, part, run[1..], moves[1..])
      && (run[0].Removal? ==> !IsCut(h.nets[run[0].e], Refined(h1, k, part, run[1..], moves[1..])))
  }

  /** The counters are off by nothing if and only if no net is missed. */
  lemma {:induction false} MissedNothingRefinedIff(h: Hypergraph, k: nat, part: Partition, run: seq<Step>,
                                                   moves: seq<seq<Move>>)
    requires Valid(h) && LegalRun(h, run) && |part| == |h.nodes| && |moves| == |run|
    ensures forall x {:trigger MissedRefined(h, k, part, run, moves)[x]} | 0 <= x < |h.nodes| ::
              MissedRefined(h, k, part, run, moves)[x] <= 0
    ensures MissedRefined(h, k, part, run, moves) == Zeros(|h.nodes|) <==> NoneCutWhenRestored(h, k, part, run, moves)
    decreases |run|
  {
    if run != [] {
      var h1 := Do(h, run[0]);
      StepKeepsValid(h, run[0]);
      MissedNothingRefinedIff(h1, k, part, run[1..], moves[1..]);
      if run[0].Removal? {
        var part1 := Refined(h1, k, part, run[1..], moves[1..]);
        MissedAtRemoval(h, run[0].e, part1, MissedRefined(h1, k, part, run[1..], moves[1..]));
      }
    }
  }

  /** Nets with single pins are not missed, whatever is moved. */
  lemma {:induction false} SinglePinNetsNotMissed(h: Hypergraph, k: nat, part: Partition, run: seq<Step>,
                                                  moves: seq<seq<Move>>)
    requires LegalRun(h, run) && RemovesSinglePinNets(h, run) && |moves| == |run|
    ensures NoneCutWhenRestored(h, k, part, run, moves)
    decreases |run|
  {
    if run != [] {
      var h1 := Do(h, run[0]);
      SinglePinNetsNotMissed(h1, k, part, run[1..], moves[1..]);
      if run[0].Removal? {
        FewBlocks(h.nets[run[0].e].pins, Refined(h1, k, part, run[1..], moves[1..]));
      }
    }
  }

  /** Uncoarsening with refinement, for any run, whatever nodes are moved on whatever level:
      the hypergraph comes back, block weights, sizes and pin counts stay exact, and the
      border counters are off by exactly the removed nets that are cut when they are restored. */
  method UncoarsenAndRefine(g: GenericHypergraph, run: seq<Step>, moves: seq<seq<Move>>, ghost h: Hypergraph)
    requires Valid(h) && LegalRun(h, run) && |moves| == |run|
    requires Partitioned(g) && g.Abs() == DoAll(h, run) && |g.Part()| == |h.nodes|
    modifies g, g.incidence
    ensures PartitionedBut(g, MissedRefined(h, g.k, old(g.Part()), run, moves)) && g.Abs() == h
    ensures g.Part() == Refined(h, g.k, old(g.Part()), run, moves)
    ensures Partitioned(g) <==> NoneCutWhenRestored(h, g.k, old(g.Part()), run, moves)
    ensures RemovesSinglePinNets(h, run) ==> Partitioned(g)
    decreases |run|
  {
    ghost var part := g.Part();
    if run == [] {
      OffByNothing(g);
    } else {
      StepKeepsValid(h, run[0]);
      UncoarsenAndRefine(g, run[1..], moves[1..], Do(h, run[0]));
      UndoStep(g, run[0], h, MissedRefined(Do(h, run[0]), g.k, part, run[1..], moves[1..]));
      Refine(g, moves[0], MissedRefined(h, g.k, part, run, moves));
    }
    MissedNothingRefinedIff(h, g.k, part, run, moves);
    PartitionedIff(g, MissedRefined(h, g.k, part, run, moves));
    if RemovesSinglePinNets(h, run) {
      SinglePinNetsNotMissed(h, g.k, part, run, moves);
    }
  }

  /** The n-level scheme with refinement: any coarsening, any assignment of blocks to the nodes
      left, and the way back with any moves on every level. The data on the partition are
      exact if and only if no removed net is cut when it is restored, as is the case if all of
      them have a single pin. */
  method PartitionAndRefine(g: GenericHypergraph, run: seq<Step>, blocks: seq<nat>, moves: seq<seq<Move>>)
    returns (ghost h: Hypergraph, ghost coarse: Partition)
    requires Unpartitioned(g) && LegalRun(g.Abs(), run) && |moves| == |run|
    requires IsAssignment(DoAll(g.Abs(), run), blocks, g.k)
    modifies g, g.incidence
    ensures h == old(g.Abs()) && LegalRun(h, run) && |blocks| == |h.nodes| == |DoAll(h, run).nodes|
    ensures coarse == AssignedUpTo(DoAll(h, run), blocks, |blocks|)
    ensures PartitionedBut(g, MissedRefined(h, g.k, coarse, run, moves)) && g.Abs() == h
    ensures g.Part() == Refined(h, g.k, coarse, run, moves)
    ensures Partitioned(g) <==> NoneCutWhenRestored(h, g.k, coarse, run, moves)
    ensures RemovesSinglePinNets(h, run) ==> Partitioned(g)
  {
    h := g.Abs();
    RunKeepsValid(h, run);
    Coarsen(g, run);
    AssignBlocks(g, blocks);
    coarse := g.Part();
    UncoarsenAndRefine(g, run, moves, h);
  }
}
