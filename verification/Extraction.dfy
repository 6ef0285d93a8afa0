/** Extracting a block as a hypergraph of its own, ready to be bisected. */
module Extraction {
  import opened Sums
  import opened NLevel
  import opened Partitions
  import opened Layout
  import opened PinCounts
  import opened Uncontraction
  import opened Moves
  import opened Construction
  import opened HypergraphClass
  import opened Relabelling
  import opened CutNetSplitting

  /** mapping and toSub are inverse to each other. */
  ghost predicate Inverse(mapping: seq<nat>, toSub: map<nat, nat>) {
    && NoDuplicates(mapping)
    && (forall v: nat {:trigger v in toSub} :: v in toSub <==> v in mapping)
    && (forall v: nat {:trigger toSub[v]} | v in toSub :: toSub[v] < |mapping| && mapping[toSub[v]] == v)
  }

  /** In ascending order. */
  ghost predicate InOrder(s: seq<nat>) {
    forall i, j {:trigger s[i], s[j]} | 0 <= i < j < |s| :: s[i] < s[j]
  }

  lemma InOrderOn(s: seq<nat>, x: nat)
    requires InOrder(s) && forall y: nat | y in s :: y < x
    ensures InOrder(s + [x])
  {
    forall i, j | 0 <= i < j < |s + [x]| ensures (s + [x])[i] < (s + [x])[j] {
      assert s[i] in s;
    }
  }

  /** The nodes of a block, numbered in order. */
  method NumberNodes(g: GenericHypergraph, part: nat) returns (mapping: seq<nat>, toSub: map<nat, nat>)
    ensures Inverse(mapping, toSub) && InOrder(mapping)
    ensures forall v: nat {:trigger v in mapping} ::
              v in mapping <==> v < |g.hypernodes| && g.hypernodes[v].valid && g.hypernodes[v].partId == part
  {
    mapping, toSub := [], map[];
    for v := 0 to |g.hypernodes|
      invariant Inverse(mapping, toSub) && InOrder(mapping)
      invariant forall x: nat {:trigger x in mapping} ::
                  x in mapping <==> x < v && g.hypernodes[x].valid && g.hypernodes[x].partId == part
    {
      if g.hypernodes[v].valid && g.hypernodes[v].partId == part {
        Appended(mapping, v);
        InOrderOn(mapping, v);
        toSub := toSub[v := |mapping|];
        mapping := mapping + [v];
      }
    }
  }

  /** One pin more. */
  lemma OneMorePosition(mapping: seq<nat>, toSub: map<nat, nat>, pins: set<nat>, part: Partition, b: int, p: nat)
    requires Inverse(mapping, toSub) && (BlockOf(part, p) == b ==> p in mapping)
    ensures Positions(mapping, PinsIn(pins + {p}, part, b))
         == Positions(mapping, PinsIn(pins, part, b)) + if BlockOf(part, p) == b then {toSub[p]} else {}
    ensures p !in pins && BlockOf(part, p) == b ==> toSub[p] !in Positions(mapping, PinsIn(pins, part, b))
  {
    if BlockOf(part, p) == b {
      assert p in toSub;
      assert PinsIn(pins + {p}, part, b) == PinsIn(pins, part, b) + {p};
      forall i: nat | i < |mapping| && mapping[i] == p ensures i == toSub[p] {
        assert mapping[toSub[p]] == mapping[i];
      }
    } else {
      assert PinsIn(pins + {p}, part, b) == PinsIn(pins, part, b);
    }
  }

  /** The entries appended for the pins dealt with so far. */
  ghost predicate Appending(edges: seq<nat>, edges': seq<nat>, mapping: seq<nat>, pins: set<nat>, part: Partition,
                            b: int) {
    && |edges| <= |edges'| && edges'[..|edges|] == edges
    && NoDuplicates(edges'[|edges|..])
    && Elements(edges'[|edges|..]) == Positions(mapping, PinsIn(pins, part, b))
  }

  lemma AppendingOn(edges: seq<nat>, edges': seq<nat>, mapping: seq<nat>, toSub: map<nat, nat>, pins: set<nat>,
                    part: Partition, b: int, p: nat)
    requires Inverse(mapping, toSub) && (BlockOf(part, p) == b ==> p in mapping) && p !in pins
    requires Appending(edges, edges', mapping, pins, part, b)
    ensures BlockOf(part, p) == b ==> Appending(edges, edges' + [toSub[p]], mapping, pins + {p}, part, b)
    ensures BlockOf(part, p) != b ==> Appending(edges, edges', mapping, pins + {p}, part, b)
  {
    OneMorePosition(mapping, toSub, pins, part, b, p);
    if BlockOf(part, p) == b {
      var tail := edges'[|edges|..];
      assert (edges' + [toSub[p]])[|edges|..] == tail + [toSub[p]];
      Appended(tail, toSub[p]);
      assert toSub[p] !in Elements(tail);
    }
  }

  /** Appends the pins of a net that are in the block. */
  method AppendPins(g: GenericHypergraph, he: nat, part: nat, mapping: seq<nat>, toSub: map<nat, nat>, edges: seq<nat>)
    returns (edges': seq<nat>)
    requires g.Rep() && Valid(g.Abs()) && HasNet(g.Abs(), he) && Inverse(mapping, toSub)
    requires forall v: nat {:trigger v in mapping} ::
               v in mapping <==> v < |g.hypernodes| && g.hypernodes[v].valid && g.hypernodes[v].partId == part
    ensures Appending(edges, edges', mapping, g.Abs().nets[he].pins, g.Part(), part)
  {
    edges' := edges;
    g.AllPins(he);
    assert PinsIn({}, g.Part(), part) == {} && Positions(mapping, {}) == {};
    for slot := g.hyperedges[he].begin to g.hyperedges[he].FirstInvalidEntry()
      invariant Appending(edges, edges', mapping, g.PinsBefore(he, slot), g.Part(), part)
    {
      g.NextPin(he, slot);
      var pin := g.incidence[slot];
      assert HasNode(g.Abs(), pin) && BlockOf(g.Part(), pin) == g.hypernodes[pin].partId;
      AppendingOn(edges, edges', mapping, toSub, g.PinsBefore(he, slot), g.Part(), part, pin);
      if g.hypernodes[pin].partId == part {
        edges' := edges' + [toSub[pin]];
      }
    }
  }

  /** How the incremental data of a net tell whether it is kept. */
  lemma KeptByRow(obj: Objective, r: Row, n: Net, part: Partition, k: nat, b: nat)
    requires n.enabled && n.pins != {} && Assigned(n.pins, part, k) && Exact(r, n.pins, part, k) && b < k
    ensures r.blocks != []
    ensures obj.KM1? ==> (Kept(obj, n, part, b) <==> !(r.connectivity == 1 && r.blocks[0] != b) && r.counts[b] > 1)
    ensures obj.CUT? ==> (Kept(obj, n, part, b) <==> r.connectivity <= 1 && r.blocks[0] == b)
  {
    ExactConnectivity(r, n.pins, part, k);
    assert r.counts[b] == PinCount(n.pins, part, b);
    var p: nat :| p in n.pins;
    assert BlockOf(part, p) in Elements(r.blocks);
    assert r.blocks[0] in Elements(r.blocks);
    if r.connectivity == 1 {
      OnlyBlock(n.pins, part, p);
      assert r.blocks == [r.blocks[0]];
    }
  }

  /** Is the net part of the hypergraph that the block induces? */
  method IsKept(g: GenericHypergraph, he: nat, part: nat, obj: Objective) returns (kept: bool)
    requires g.Rep() && g.CountsExact() && Valid(g.Abs()) && HasNet(g.Abs(), he) && g.Abs().nets[he].pins != {}
    requires FullyAssigned(g.Abs(), g.Part(), g.k) && part < g.k
    ensures kept <==> Kept(obj, g.Abs().nets[he], g.Part(), part)
  {
    var row := g.rows[he];
    NetAssigned(g.Abs(), g.Part(), g.k, he);
    assert RowFits(row, g.Abs().nets[he], g.Part(), g.k);
    KeptByRow(obj, row, g.Abs().nets[he], g.Part(), g.k, part);
    if obj == KM1 {
      if row.connectivity == 1 && row.blocks[0] != part {
        return false;
      }
      return row.counts[part] > 1;
    } else {
      if row.connectivity > 1 {
        return false;
      }
      return row.blocks[0] == part;
    }
  }

  /** The nets before number e have been dealt with. */
  ghost predicate InExtraction(obj: Objective, h: Hypergraph, part: Partition, b: int, mapping: seq<nat>,
                               index: seq<nat>, edges: seq<nat>, weights: seq<int>, kept: seq<nat>, e: nat) {
    && WellFormed(|mapping|, index, edges)
    && |index| == |kept| + 1 && |weights| == |kept|
    && NoDuplicates(kept) && InOrder(kept)
    && (forall d: nat {:trigger d in kept} :: d in kept <==> d < e && d < |h.nets| && Kept(obj, h.nets[d], part, b))
    && (forall i {:trigger kept[i]} | 0 <= i < |kept| ::
          && kept[i] < |h.nets| && weights[i] == h.nets[kept[i]].weight
          && Elements(InputPins(index, edges, i)) == Positions(mapping, PinsIn(h.nets[kept[i]].pins, part, b)))
  }

  /** What appending a net does to the nets before it, and to itself. */
  lemma NetAppendedAt(numNodes: nat, index: seq<nat>, edges: seq<nat>, tail: seq<nat>, e: nat)
    requires WellFormed(numNodes, index, edges) && NoDuplicates(tail) && e < |index|
    ensures var index', edges' := index + [|edges| + |tail|], edges + tail;
            && index'[e] <= index'[e + 1] <= |edges'|
            && NoDuplicates(InputPins(index', edges', e))
            && InputPins(index', edges', e) == if e + 1 < |index| then InputPins(index, edges, e) else tail
  {
    var index', edges' := index + [|edges| + |tail|], edges + tail;
    if e + 1 < |index| {
      NetInRange(numNodes, index, edges, e);
      assert edges'[index[e]..index[e + 1]] == edges[index[e]..index[e + 1]];
    } else {
      assert edges'[|edges|..|edges| + |tail|] == tail;
    }
  }

  lemma NetAppended(numNodes: nat, index: seq<nat>, edges: seq<nat>, tail: seq<nat>)
    requires WellFormed(numNodes, index, edges) && NoDuplicates(tail)
    requires forall p | p in tail :: p < numNodes
    ensures WellFormed(numNodes, index + [|edges| + |tail|], edges + tail)
  {
    var index', edges' := index + [|edges| + |tail|], edges + tail;
    forall e {:trigger index'[e]} | 0 <= e < |index'| - 1
      ensures index'[e] <= index'[e + 1] <= |edges'| && NoDuplicates(InputPins(index', edges', e))
    {
      NetAppendedAt(numNodes, index, edges, tail, e);
    }
    forall p | 0 <= p < |edges'| ensures edges'[p] < numNodes {
      if p < |edges| {
        assert edges[p] < numNodes;
      } else {
        assert tail[p - |edges|] in tail;
      }
    }
  }

  lemma NetSkipped(obj: Objective, h: Hypergraph, part: Partition, b: int, mapping: seq<nat>,
                   index: seq<nat>, edges: seq<nat>, weights: seq<int>, kept: seq<nat>, e: nat)
    requires InExtraction(obj, h, part, b, mapping, index, edges, weights, kept, e)
    requires e < |h.nets| && !Kept(obj, h.nets[e], part, b)
    ensures InExtraction(obj, h, part, b, mapping, index, edges, weights, kept, e + 1)
  {
    forall d: nat ensures d in kept <==> d < e + 1 && d < |h.nets| && Kept(obj, h.nets[d], part, b) {
      assert d in kept <==> d < e && d < |h.nets| && Kept(obj, h.nets[d], part, b);
    }
  }

  lemma NetExtracted(obj: Objective, h: Hypergraph, part: Partition, b: int, mapping: seq<nat>,
                     index: seq<nat>, edges: seq<nat>, weights: seq<int>, kept: seq<nat>, e: nat, edges': seq<nat>)
    requires InExtraction(obj, h, part, b, mapping, index, edges, weights, kept, e)
    requires e < |h.nets| && Kept(obj, h.nets[e], part, b)
    requires Appending(edges, edges', mapping, h.nets[e].pins, part, b)
    ensures InExtraction(obj, h, part, b, mapping, index + [|edges'|], edges', weights + [h.nets[e].weight],
                         kept + [e], e + 1)
  {
    var tail := edges'[|edges|..];
    forall p | p in tail ensures p < |mapping| {
      assert p in Elements(tail) && p in Positions(mapping, PinsIn(h.nets[e].pins, part, b));
    }
    NetAppended(|mapping|, index, edges, tail);
    assert edges' == edges + tail;
    Appended(kept, e);
    InOrderOn(kept, e);
    var kept' := kept + [e];
    forall d: nat ensures d in kept' <==> d < e + 1 && d < |h.nets| && Kept(obj, h.nets[d], part, b) {
      assert d in kept' <==> d in kept || d == e;
    }
    forall i | 0 <= i < |kept'|
      ensures kept'[i] < |h.nets|
      ensures (weights + [h.nets[e].weight])[i] == h.nets[kept'[i]].weight
      ensures Elements(InputPins(index + [|edges'|], edges', i))
           == Positions(mapping, PinsIn(h.nets[kept'[i]].pins, part, b))
    {
      NetAppendedAt(|mapping|, index, edges, tail, i);
      if i < |kept| {
        assert kept[i] < |h.nets|;
      }
    }
  }

  /** The hypergraph can be split: all nodes have blocks, and no net is empty. */
  ghost predicate Splittable(g: GenericHypergraph)
    reads g, g.incidence
  {
    && g.Rep() && g.CountsExact() && Valid(g.Abs()) && FullyAssigned(g.Abs(), g.Part(), g.k)
    && forall e {:trigger g.Abs().nets[e]} | 0 <= e < |g.rows| && g.Abs().nets[e].enabled :: g.Abs().nets[e].pins != {}
  }

  /** mapping lists the nodes of the block. */
  ghost predicate Lists(g: GenericHypergraph, mapping: seq<nat>, part: nat)
    reads g
  {
    forall v: nat {:trigger v in mapping} ::
      v in mapping <==> v < |g.hypernodes| && g.hypernodes[v].valid && g.hypernodes[v].partId == part
  }

  /** Deals with one net. */
  method ExtractNet(g: GenericHypergraph, he: nat, part: nat, obj: Objective, mapping: seq<nat>, toSub: map<nat, nat>,
                    index: seq<nat>, edges: seq<nat>, weights: seq<int>, ghost kept: seq<nat>)
    returns (index': seq<nat>, edges': seq<nat>, weights': seq<int>, ghost kept': seq<nat>)
    requires Splittable(g) && part < g.k && he < |g.rows| && Inverse(mapping, toSub) && Lists(g, mapping, part)
    requires InExtraction(obj, g.Abs(), g.Part(), part, mapping, index, edges, weights, kept, he)
    ensures InExtraction(obj, g.Abs(), g.Part(), part, mapping, index', edges', weights', kept', he + 1)
  {
    index', edges', weights', kept' := index, edges, weights, kept;
    var keep := false;
    if g.hyperedges[he].valid {
      assert g.Abs().nets[he].enabled;
      keep := IsKept(g, he, part, obj);
    }
    if keep {
      edges' := AppendPins(g, he, part, mapping, toSub, edges);
      NetExtracted(obj, g.Abs(), g.Part(), part, mapping, index, edges, weights, kept, he, edges');
      assert g.hyperedges[he].weight == g.Abs().nets[he].weight;
      index', weights', kept' := index + [|edges'|], weights + [g.hyperedges[he].weight], kept + [he];
    } else {
      NetSkipped(obj, g.Abs(), g.Part(), part, mapping, index, edges, weights, kept, he);
    }
  }

  /** Collects the nets that the block induces. */
  method ExtractNets(g: GenericHypergraph, part: nat, obj: Objective, mapping: seq<nat>, toSub: map<nat, nat>)
    returns (index: seq<nat>, edges: seq<nat>, weights: seq<int>, ghost kept: seq<nat>)
    requires Splittable(g) && part < g.k && Inverse(mapping, toSub) && Lists(g, mapping, part)
    ensures InExtraction(obj, g.Abs(), g.Part(), part, mapping, index, edges, weights, kept, |g.rows|)
  {
    index, edges, weights, kept := [0], [], [], [];
    for he := 0 to |g.rows|
      invariant InExtraction(obj, g.Abs(), g.Part(), part, mapping, index, edges, weights, kept, he)
    {
      index, edges, weights, kept := ExtractNet(g, he, part, obj, mapping, toSub, index, edges, weights, kept);
    }
  }

  /** No net is kept for a block without nodes. */
  lemma EmptyBlock(obj: Objective, h: Hypergraph, part: Partition, b: nat, mapping: seq<nat>)
    requires Valid(h) && mapping == []
    requires forall v: nat {:trigger v in mapping} :: v in mapping <==> HasNode(h, v) && BlockOf(part, v) == b
    ensures InExtraction(obj, h, part, b, mapping, [0], [], [], [], |h.nets|)
  {
    forall e | 0 <= e < |h.nets| && h.nets[e].enabled
      ensures PinsIn(h.nets[e].pins, part, b) == {} && b !in Blocks(h.nets[e].pins, part)
    {
      forall p | p in h.nets[e].pins ensures BlockOf(part, p) != b {
        assert HasNode(h, p);
        assert p !in mapping;
      }
    }
  }

  function WeightsOf(hypernodes: seq<Hypernode>, mapping: seq<nat>): seq<int>
    requires forall i | 0 <= i < |mapping| :: mapping[i] < |hypernodes|
  {
    seq(|mapping|, i requires 0 <= i < |mapping| => hypernodes[mapping[i]].weight)
  }

  lemma BuiltIsExtraction(obj: Objective, h: Hypergraph, part: Partition, b: int, mapping: seq<nat>,
                          index: seq<nat>, edges: seq<nat>, weights: seq<int>, nodeWeights: seq<int>, kept: seq<nat>)
    requires InExtraction(obj, h, part, b, mapping, index, edges, weights, kept, |h.nets|) && NoDuplicates(mapping)
    requires forall v: nat {:trigger v in mapping} :: v in mapping <==> HasNode(h, v) && BlockOf(part, v) == b
    requires |nodeWeights| == |mapping|
    requires forall i {:trigger mapping[i]} | 0 <= i < |mapping| ::
               mapping[i] < |h.nodes| && nodeWeights[i] == h.nodes[mapping[i]].weight
    ensures IsExtraction(obj, h, part, b, mapping, kept, Built(|mapping|, index, edges, weights, nodeWeights))
  {
    var sub := Built(|mapping|, index, edges, weights, nodeWeights);
    forall i | 0 <= i < |kept|
      ensures kept[i] < |h.nets| && IsNetOf(h.nets[kept[i]], part, b, mapping, sub.nets[i])
    {}
    forall i | 0 <= i < |mapping|
      ensures mapping[i] < |h.nodes| && sub.nodes[i].enabled && sub.nodes[i].weight == h.nodes[mapping[i]].weight
    {}
  }

  /** The vectors that describe the hypergraph a block induces. */
  method ExtractVectors(g: GenericHypergraph, part: nat, obj: Objective)
    returns (mapping: seq<nat>, index: seq<nat>, edges: seq<nat>, weights: seq<int>, nodeWeights: seq<int>,
             ghost kept: seq<nat>)
    requires Splittable(g) && part < g.k
    ensures InOrder(mapping) && InOrder(kept)
    ensures WellFormed(|mapping|, index, edges) && |weights| == |index| - 1 && |nodeWeights| == |mapping|
    ensures IsExtraction(obj, g.Abs(), g.Part(), part, mapping, kept,
                         Built(|mapping|, index, edges, weights, nodeWeights))
  {
    var toSub;
    mapping, toSub := NumberNodes(g, part);
    assert forall v: nat {:trigger v in mapping} ::
           v in mapping <==> HasNode(g.Abs(), v) && BlockOf(g.Part(), v) == part;
    index, edges, weights, kept := [0], [], [], [];
    if |mapping| > 0 {
      index, edges, weights, kept := ExtractNets(g, part, obj, mapping, toSub);
    } else {
      EmptyBlock(obj, g.Abs(), g.Part(), part, mapping);
    }
    assert forall i {:trigger mapping[i]} | 0 <= i < |mapping| :: mapping[i] in mapping;
    nodeWeights := WeightsOf(g.hypernodes, mapping);
    BuiltIsExtraction(obj, g.Abs(), g.Part(), part, mapping, index, edges, weights, nodeWeights, kept);
  }

  /** Extracts a block of a partitioned hypergraph as an unpartitioned one of two blocks. */
  method ExtractPartAsUnpartitionedHypergraphForBisection(g: GenericHypergraph, part: nat, obj: Objective)
    returns (sub: GenericHypergraph, mapping: seq<nat>, ghost kept: seq<nat>)
    requires Splittable(g) && part < g.k
    ensures fresh(sub) && fresh(sub.incidence) && sub.k == 2
    ensures sub.Rep() && sub.CountsExact() && sub.NumbersOf(sub.Abs()) && Valid(sub.Abs())
    ensures Unpartitioned(sub, |mapping|)
    ensures IsExtraction(obj, g.Abs(), g.Part(), part, mapping, kept, sub.Abs()) && InOrder(mapping) && InOrder(kept)
  {
    var index, edges, weights, nodeWeights;
    mapping, index, edges, weights, nodeWeights, kept := ExtractVectors(g, part, obj);
    sub := new GenericHypergraph(|mapping|, index, edges, 2, weights, nodeWeights);
  }

  ghost predicate AllConsistent(subs: seq<GenericHypergraph>)
    reads set sub | sub in subs, set sub | sub in subs :: sub.incidence
  {
    forall i {:trigger subs[i]} | 0 <= i < |subs| :: subs[i].Rep()
  }

  /** The extracted hypergraphs as values. */
  ghost function ValuesOf(subs: seq<GenericHypergraph>): (values: seq<Hypergraph>)
    requires AllConsistent(subs)
    reads set sub | sub in subs, set sub | sub in subs :: sub.incidence
    ensures |values| == |subs|
    decreases |subs|
  {
    if subs == [] then [] else [subs[0].Abs()] + ValuesOf(subs[1..])
  }

  /** The hypergraphs are consistent, have two blocks each, and no node has a block yet. */
  ghost predicate ReadyForBisection(subs: seq<GenericHypergraph>, mappings: seq<seq<nat>>)
    reads set sub | sub in subs, set sub | sub in subs :: sub.incidence
  {
    && |mappings| == |subs| && AllConsistent(subs)
    && forall i {:trigger subs[i]} | 0 <= i < |subs| ::
         && subs[i].k == 2 && subs[i].CountsExact() && Valid(subs[i].Abs())
         && subs[i].NumbersOf(subs[i].Abs()) && Unpartitioned(subs[i], |mappings[i]|)
  }

  /** No node has a block, and all data agree with that. */
  ghost predicate Unpartitioned(g: GenericHypergraph, n: nat)
    requires g.Rep()
    reads g, g.incidence
  {
    && g.Part() == Unassigned(n) && g.Borders() == seq(n, _ => 0)
    && InfoExact(g.Abs(), g.Part(), g.partInfo)
  }

  /** The blocks from number b on have been extracted. */
  ghost predicate ExtractedFrom(obj: Objective, h: Hypergraph, part: Partition, b: int,
                                mappings: seq<seq<nat>>, kept: seq<seq<nat>>, values: seq<Hypergraph>) {
    && |mappings| == |kept| == |values|
    && forall i {:trigger values[i]} | 0 <= i < |values| ::
         IsExtraction(obj, h, part, b + i, mappings[i], kept[i], values[i]) && InOrder(mappings[i]) && InOrder(kept[i])
  }

  lemma OneMoreExtracted(obj: Objective, h: Hypergraph, part: Partition, b: int, mapping: seq<nat>, nets: seq<nat>,
                         sub: Hypergraph, mappings: seq<seq<nat>>, kept: seq<seq<nat>>, values: seq<Hypergraph>)
    requires IsExtraction(obj, h, part, b, mapping, nets, sub) && InOrder(mapping) && InOrder(nets)
    requires ExtractedFrom(obj, h, part, b + 1, mappings, kept, values)
    ensures ExtractedFrom(obj, h, part, b, [mapping] + mappings, [nets] + kept, [sub] + values)
  {
    forall i | 0 <= i < |values| + 1
      ensures IsExtraction(obj, h, part, b + i, ([mapping] + mappings)[i], ([nets] + kept)[i], ([sub] + values)[i])
      ensures InOrder(([mapping] + mappings)[i]) && InOrder(([nets] + kept)[i])
    {
      if i > 0 {
        assert IsExtraction(obj, h, part, (b + 1) + (i - 1), mappings[i - 1], kept[i - 1], values[i - 1]);
        assert InOrder(mappings[i - 1]) && InOrder(kept[i - 1]);
      }
    }
  }

  /** For every refinement of the partition the objective of the whole is that of the
      partition plus the objectives that the refinement has in the extracted hypergraphs. */
  ghost predicate ObjectivesAddUp(obj: Objective, h: Hypergraph, part: Partition, mappings: seq<seq<nat>>,
                                  subs: seq<Hypergraph>) {
    && |mappings| == |subs|
    && forall finer: Partition {:trigger Refines(finer, part, h)} | Refines(finer, part, h) ::
         ObjectiveOf(obj, h, finer) == ObjectiveOf(obj, h, part) + Sum(SubObjectives(obj, mappings, subs, finer))
  }

  ghost predicate AllInOrder(lists: seq<seq<nat>>) {
    forall b {:trigger lists[b]} | 0 <= b < |lists| :: InOrder(lists[b])
  }

  lemma AllExtracted(obj: Objective, h: Hypergraph, part: Partition, mappings: seq<seq<nat>>, kept: seq<seq<nat>>,
                     values: seq<Hypergraph>)
    requires Valid(h) && FullyAssigned(h, part, |values|) && ExtractedFrom(obj, h, part, 0, mappings, kept, values)
    ensures AreExtractions(obj, h, part, mappings, kept, values) && ObjectivesAddUp(obj, h, part, mappings, values)
    ensures AllInOrder(mappings) && AllInOrder(kept)
  {
    forall b | 0 <= b < |values|
      ensures IsExtraction(obj, h, part, b, mappings[b], kept[b], values[b])
      ensures InOrder(mappings[b]) && InOrder(kept[b])
    {
      assert IsExtraction(obj, h, part, 0 + b, mappings[b], kept[b], values[b]);
    }
    forall finer: Partition | Refines(finer, part, h)
      ensures ObjectiveOf(obj, h, finer) == ObjectiveOf(obj, h, part) + Sum(SubObjectives(obj, mappings, values, finer))
    {
      SplittingIsExact(obj, h, part, mappings, kept, values, finer);
    }
  }

  /** The blocks from number part on have been extracted from g. */
  ghost predicate InSplitting(g: GenericHypergraph, obj: Objective, part: nat,
                              subs: seq<GenericHypergraph>, mappings: seq<seq<nat>>, kept: seq<seq<nat>>)
    reads g, g.incidence, set sub | sub in subs, set sub | sub in subs :: sub.incidence
  {
    && Splittable(g) && |subs| + part == g.k && NoDuplicates(subs) && g !in subs && ReadyForBisection(subs, mappings)
    && ExtractedFrom(obj, g.Abs(), g.Part(), part, mappings, kept, ValuesOf(subs))
  }

  lemma SplittingGoesOn(g: GenericHypergraph, obj: Objective, part: nat, sub: GenericHypergraph, mapping: seq<nat>,
                        nets: seq<nat>, subs: seq<GenericHypergraph>, mappings: seq<seq<nat>>, kept: seq<seq<nat>>)
    requires InSplitting(g, obj, part + 1, subs, mappings, kept)
    requires sub.k == 2 && sub.Rep() && sub.CountsExact() && Valid(sub.Abs())
    requires sub.NumbersOf(sub.Abs()) && Unpartitioned(sub, |mapping|)
    requires IsExtraction(obj, g.Abs(), g.Part(), part, mapping, nets, sub.Abs()) && InOrder(mapping) && InOrder(nets)
    requires sub !in subs && sub != g
    ensures InSplitting(g, obj, part, [sub] + subs, [mapping] + mappings, [nets] + kept)
  {
    assert ([sub] + subs)[1..] == subs;
    OneMoreExtracted(obj, g.Abs(), g.Part(), part, mapping, nets, sub.Abs(), mappings, kept, ValuesOf(subs));
  }

  lemma SplittingBegins(g: GenericHypergraph, obj: Objective)
    requires Splittable(g)
    ensures InSplitting(g, obj, g.k, [], [], [])
  {}

  lemma SplittingEnds(g: GenericHypergraph, obj: Objective, subs: seq<GenericHypergraph>, mappings: seq<seq<nat>>,
                      kept: seq<seq<nat>>)
    requires InSplitting(g, obj, 0, subs, mappings, kept)
    ensures |subs| == g.k && NoDuplicates(subs) && g !in subs && ReadyForBisection(subs, mappings)
    ensures AreExtractions(obj, g.Abs(), g.Part(), mappings, kept, ValuesOf(subs))
    ensures AllInOrder(mappings) && AllInOrder(kept)
    ensures ObjectivesAddUp(obj, g.Abs(), g.Part(), mappings, ValuesOf(subs))
  {
    AllExtracted(obj, g.Abs(), g.Part(), mappings, kept, ValuesOf(subs));
  }

  /** Extracts one more block. */
  method ExtractNextPart(g: GenericHypergraph, obj: Objective, part: nat,
                         ghost subs: seq<GenericHypergraph>, ghost mappings: seq<seq<nat>>, ghost kept: seq<seq<nat>>)
    returns (sub: GenericHypergraph, mapping: seq<nat>, ghost nets: seq<nat>)
    requires InSplitting(g, obj, part + 1, subs, mappings, kept)
    ensures fresh(sub) && InSplitting(g, obj, part, [sub] + subs, [mapping] + mappings, [nets] + kept)
  {
    ghost var before := InSplitting(g, obj, part + 1, subs, mappings, kept);
    sub, mapping, nets := ExtractPartAsUnpartitionedHypergraphForBisection(g, part, obj);
    assert InSplitting(g, obj, part + 1, subs, mappings, kept) == before;
    SplittingGoesOn(g, obj, part, sub, mapping, nets, subs, mappings, kept);
  }

  /** Extracts all blocks, the last one first. */
  method ExtractAllParts(g: GenericHypergraph, obj: Objective)
    returns (subs: seq<GenericHypergraph>, mappings: seq<seq<nat>>, ghost kept: seq<seq<nat>>)
    requires Splittable(g)
    ensures |subs| == g.k && NoDuplicates(subs) && g !in subs && ReadyForBisection(subs, mappings)
    ensures AreExtractions(obj, g.Abs(), g.Part(), mappings, kept, ValuesOf(subs))
    ensures AllInOrder(mappings) && AllInOrder(kept)
    ensures ObjectivesAddUp(obj, g.Abs(), g.Part(), mappings, ValuesOf(subs))
  {
    subs, mappings, kept := [], [], [];
    SplittingBegins(g, obj);
    for part: nat := g.k downto 0
      invariant InSplitting(g, obj, part, subs, mappings, kept)
    {
      var sub, mapping;
      ghost var nets;
      sub, mapping, nets := ExtractNextPart(g, obj, part, subs, mappings, kept);
      subs, mappings, kept := [sub] + subs, [mapping] + mappings, [nets] + kept;
    }
    SplittingEnds(g, obj, subs, mappings, kept);
  }
}
