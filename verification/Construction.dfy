/** The hypergraph that an index vector and an edge vector describe: the pins of net e are
    the entries of the edge vector from position index[e] up to index[e + 1]. */
module Construction {
  import opened Sums
  import opened NLevel
  import opened Partitions
  import opened Layout
  import opened PinCounts
  import opened Sizes
  import opened Uncontraction
  import opened Moves

  ghost predicate WellFormed(numNodes: nat, index: seq<nat>, edges: seq<nat>) {
    && index != [] && index[0] == 0 && index[|index| - 1] == |edges|
    && (forall p {:trigger edges[p]} | 0 <= p < |edges| :: edges[p] < numNodes)
    && (forall e {:trigger InputPins(index, edges, e)} | 0 <= e < |index| - 1 ::
          index[e] <= index[e + 1] <= |edges| && NoDuplicates(InputPins(index, edges, e)))
  }

  lemma {:induction false} Ascending(numNodes: nat, index: seq<nat>, edges: seq<nat>, i: nat, j: nat)
    requires WellFormed(numNodes, index, edges) && i <= j < |index|
    ensures index[i] <= index[j]
    decreases j - i
  {
    if i < j {
      NetInRange(numNodes, index, edges, i);
      Ascending(numNodes, index, edges, i + 1, j);
    }
  }

  lemma NetInRange(numNodes: nat, index: seq<nat>, edges: seq<nat>, e: nat)
    requires WellFormed(numNodes, index, edges) && e + 1 < |index|
    ensures index[e] <= index[e + 1] <= |edges|
    ensures InputPins(index, edges, e) == edges[index[e]..index[e + 1]]
    ensures NoDuplicates(InputPins(index, edges, e))
  {
    var pins := InputPins(index, edges, e);
  }

  function InputPins(index: seq<nat>, edges: seq<nat>, e: int): seq<nat> {
    if 0 <= e < |index| - 1 && index[e] <= index[e + 1] <= |edges| then edges[index[e]..index[e + 1]] else []
  }

  /** The weight of number i: one, unless weights are given. */
  function WeightAt(weights: seq<int>, i: nat): int {
    if i < |weights| then weights[i] else 1
  }

  /** The nets before net i that have v as a pin. */
  ghost function NetsWith(index: seq<nat>, edges: seq<nat>, v: nat, i: nat): set<nat> {
    set e: nat | e < i && v in Elements(InputPins(index, edges, e))
  }

  ghost function Built(numNodes: nat, index: seq<nat>, edges: seq<nat>, netWeights: seq<int>,
                       nodeWeights: seq<int>): (h: Hypergraph)
    requires index != []
    ensures |h.nodes| == numNodes && |h.nets| == |index| - 1
  {
    Hypergraph(
      seq(numNodes, v requires 0 <= v < numNodes =>
            Node(NetsWith(index, edges, v, |index| - 1), WeightAt(nodeWeights, v), true)),
      seq(|index| - 1, e requires 0 <= e < |index| - 1 =>
            Net(Elements(InputPins(index, edges, e)), [], WeightAt(netWeights, e), true)))
  }

  lemma BuiltIsValid(numNodes: nat, index: seq<nat>, edges: seq<nat>, netWeights: seq<int>, nodeWeights: seq<int>)
    requires WellFormed(numNodes, index, edges)
    ensures Valid(Built(numNodes, index, edges, netWeights, nodeWeights))
  {
    var h := Built(numNodes, index, edges, netWeights, nodeWeights);
    forall e, p | 0 <= e < |h.nets| && p in h.nets[e].pins ensures HasNode(h, p) && e in h.nodes[p].nets {
      var pins := InputPins(index, edges, e);
      var i :| 0 <= i < |pins| && pins[i] == p;
      assert pins[i] == edges[index[e] + i];
    }
  }

  /** The net at number e as the constructor lays it out. */
  function LaidOut(index: seq<nat>, netWeights: seq<int>, e: nat): Hyperedge
    requires e + 1 < |index| && index[e] <= index[e + 1]
  {
    Hyperedge(index[e], index[e + 1] - index[e], WeightAt(netWeights, e), true)
  }

  ghost predicate AllLaidOut(hyperedges: seq<Hyperedge>, numNodes: nat, index: seq<nat>, edges: seq<nat>,
                             netWeights: seq<int>)
    requires WellFormed(numNodes, index, edges)
  {
    && |hyperedges| == |index|
    && (forall e {:trigger hyperedges[e]} | 0 <= e < |index| - 1 ::
          index[e] <= index[e + 1] && hyperedges[e] == LaidOut(index, netWeights, e))
    && hyperedges[|index| - 1].begin == |edges| && hyperedges[|index| - 1].size == 0
  }

  lemma BeginsAt(hyperedges: seq<Hyperedge>, numNodes: nat, index: seq<nat>, edges: seq<nat>, netWeights: seq<int>,
                 e: nat)
    requires WellFormed(numNodes, index, edges) && e < |index|
    requires AllLaidOut(hyperedges, numNodes, index, edges, netWeights)
    ensures hyperedges[e].begin == index[e]
    ensures hyperedges[e].FirstInvalidEntry() == if e + 1 < |index| then index[e + 1] else index[e]
  {
    if e + 1 < |index| {
      NetInRange(numNodes, index, edges, e);
      assert hyperedges[e] == LaidOut(index, netWeights, e);
    } else {
      assert e == |index| - 1;
    }
  }

  lemma LayoutIsOrdered(hyperedges: seq<Hyperedge>, numNodes: nat, index: seq<nat>, edges: seq<nat>,
                        netWeights: seq<int>)
    requires WellFormed(numNodes, index, edges)
    requires AllLaidOut(hyperedges, numNodes, index, edges, netWeights)
    ensures WellLaid(hyperedges, edges)
  {
    forall i, j | 0 <= i < j < |hyperedges|
      ensures hyperedges[i].FirstInvalidEntry() <= hyperedges[j].begin
    {
      Ascending(numNodes, index, edges, i + 1, j);
      BeginsAt(hyperedges, numNodes, index, edges, netWeights, i);
      BeginsAt(hyperedges, numNodes, index, edges, netWeights, j);
    }
    forall i | 0 <= i < |hyperedges| ensures hyperedges[i].FirstInvalidEntry() <= |edges| {
      BeginsAt(hyperedges, numNodes, index, edges, netWeights, i);
      Ascending(numNodes, index, edges, if i < |index| - 1 then i + 1 else i, |index| - 1);
    }
  }

  lemma LayoutIsRight(hyperedges: seq<Hyperedge>, numNodes: nat, index: seq<nat>, edges: seq<nat>,
                      netWeights: seq<int>, nodeWeights: seq<int>)
    requires WellFormed(numNodes, index, edges)
    requires AllLaidOut(hyperedges, numNodes, index, edges, netWeights)
    ensures WellLaid(hyperedges, edges) && DistinctPins(hyperedges, edges)
    ensures NetsOf(hyperedges, edges) == Built(numNodes, index, edges, netWeights, nodeWeights).nets
  {
    LayoutIsOrdered(hyperedges, numNodes, index, edges, netWeights);
    forall e | 0 <= e < |index| - 1
      ensures PinSlots(hyperedges[e], edges) == InputPins(index, edges, e)
      ensures NetAt(hyperedges, edges, e) == Built(numNodes, index, edges, netWeights, nodeWeights).nets[e]
    {
      NetInRange(numNodes, index, edges, e);
      BeginsAt(hyperedges, numNodes, index, edges, netWeights, e + 1);
      assert hyperedges[e] == LaidOut(index, netWeights, e);
      assert edges[index[e + 1]..index[e + 1]] == [];
    }
  }

  /** The pins of the nets before net i add up to the index of net i. */
  lemma {:induction false} PinsAddUp(numNodes: nat, index: seq<nat>, edges: seq<nat>, sizes: seq<int>, i: nat)
    requires WellFormed(numNodes, index, edges) && |sizes| == |index| - 1 && i < |index|
    requires forall e {:trigger sizes[e]} | 0 <= e < |sizes| :: sizes[e] == |Elements(InputPins(index, edges, e))|
    ensures Sum(sizes[..i]) == index[i]
  {
    if i > 0 {
      PinsAddUp(numNodes, index, edges, sizes, i - 1);
      SumPrefix(sizes, i - 1);
      NumberOfPins(numNodes, index, edges, i - 1);
    }
  }

  lemma NumberOfPins(numNodes: nat, index: seq<nat>, edges: seq<nat>, e: nat)
    requires WellFormed(numNodes, index, edges) && e + 1 < |index|
    ensures |Elements(InputPins(index, edges, e))| == index[e + 1] - index[e]
  {
    NetInRange(numNodes, index, edges, e);
    DistinctSize(InputPins(index, edges, e));
  }

  lemma BuiltPins(numNodes: nat, index: seq<nat>, edges: seq<nat>, nets: seq<Net>)
    requires WellFormed(numNodes, index, edges) && |nets| == |index| - 1
    requires forall e {:trigger nets[e]} | 0 <= e < |nets| ::
               nets[e].enabled && nets[e].pins == Elements(InputPins(index, edges, e))
    ensures NumPins(nets) == |edges|
  {
    var sizes := seq(|nets|, e requires 0 <= e < |nets| => PinsOfNet(nets[e]));
    PinsAddUp(numNodes, index, edges, sizes, |index| - 1);
    assert sizes[..|index| - 1] == sizes;
  }

  lemma BuiltSizes(numNodes: nat, index: seq<nat>, edges: seq<nat>, netWeights: seq<int>, nodeWeights: seq<int>)
    requires WellFormed(numNodes, index, edges)
    ensures var h := Built(numNodes, index, edges, netWeights, nodeWeights);
            NumNodes(h.nodes) == numNodes && NumNets(h.nets) == |index| - 1 && NumPins(h.nets) == |edges|
  {
    var h := Built(numNodes, index, edges, netWeights, nodeWeights);
    AllEnabled(h.nodes, h.nets);
    BuiltPins(numNodes, index, edges, h.nets);
  }

  /** No net has pins in a block while no node has one. */
  lemma UnassignedExact(r: Row, pins: set<nat>, size: nat, k: nat)
    requires |r.counts| == k && r.connectivity == 0 && r.blocks == []
    requires forall b | 0 <= b < k :: r.counts[b] == 0
    ensures Exact(r, pins, Unassigned(size), k)
  {
    forall b | 0 <= b < k ensures r.counts[b] == PinCount(pins, Unassigned(size), b) {
      assert PinsIn(pins, Unassigned(size), b) == {};
    }
  }

  lemma UnassignedInfo(h: Hypergraph, size: nat, info: seq<PartInfo>)
    requires forall b | 0 <= b < |info| :: info[b] == PartInfo(0, 0)
    ensures InfoExact(h, Unassigned(size), info)
  {
    var part := Unassigned(size);
    forall b | 0 <= b < |info| ensures BlockWeight(h, part, b) == 0 && BlockSize(h, part, b) == 0 {
      SumConstant(seq(|h.nodes|, v requires 0 <= v < |h.nodes| => WeightIn(h, part, b, v)), 0);
      SumConstant(seq(|h.nodes|, v requires 0 <= v < |h.nodes| =>
                        if h.nodes[v].enabled && BlockOf(part, v) == b then 1 else 0), 0);
    }
  }

  /** What has been listed at v when the pins before position p of net i have been dealt with. */
  ghost function ListedSoFar(index: seq<nat>, edges: seq<nat>, v: nat, i: nat, p: nat): set<nat>
    requires i < |index| && index[i] <= p <= |edges|
  {
    NetsWith(index, edges, v, i) + if v in Elements(edges[index[i]..p]) then {i} else {}
  }

  ghost predicate Listed(hypernodes: seq<Hypernode>, index: seq<nat>, edges: seq<nat>, i: nat, p: nat)
    requires i < |index| && index[i] <= p <= |edges|
  {
    forall v: nat {:trigger hypernodes[v]} | v < |hypernodes| ::
      NoDuplicates(hypernodes[v].incidentNets)
        && Elements(hypernodes[v].incidentNets) == ListedSoFar(index, edges, v, i, p)
  }

  /** Listing net i at the pin in position p. */
  lemma ListedNext(hypernodes: seq<Hypernode>, numNodes: nat, index: seq<nat>, edges: seq<nat>, i: nat, p: nat)
    requires WellFormed(numNodes, index, edges) && |hypernodes| == numNodes
    requires i + 1 < |index| && index[i] <= p < index[i + 1] <= |edges| && Listed(hypernodes, index, edges, i, p)
    ensures edges[p] < |hypernodes|
    ensures var hn := hypernodes[edges[p]];
            Listed(hypernodes[edges[p] := hn.(incidentNets := hn.incidentNets + [i])], index, edges, i, p + 1)
  {
    var x := edges[p];
    assert x < numNodes;
    var pins := InputPins(index, edges, i);
    assert NoDuplicates(pins);
    var before := edges[index[i]..p];
    assert edges[index[i]..p + 1] == before + [x];
    Appended(before, x);
    assert before == pins[..p - index[i]] && pins[p - index[i]] == x;
    assert x !in before;
    var list := hypernodes[x].incidentNets;
    assert Elements(list) == ListedSoFar(index, edges, x, i, p);
    assert i !in Elements(list);
    Appended(list, i);
  }

  lemma ListedNet(hypernodes: seq<Hypernode>, index: seq<nat>, edges: seq<nat>, i: nat)
    requires i + 1 < |index| && index[i] <= index[i + 1] <= |edges| && Listed(hypernodes, index, edges, i, index[i + 1])
    ensures Listed(hypernodes, index, edges, i + 1, index[i + 1])
  {
    forall v: nat {:trigger hypernodes[v]} | v < |hypernodes|
      ensures ListedSoFar(index, edges, v, i, index[i + 1]) == ListedSoFar(index, edges, v, i + 1, index[i + 1])
    {
      ListedSoFarNet(index, edges, v, i);
    }
  }

  lemma ListedSoFarNet(index: seq<nat>, edges: seq<nat>, v: nat, i: nat)
    requires i + 1 < |index| && index[i] <= index[i + 1] <= |edges|
    ensures ListedSoFar(index, edges, v, i, index[i + 1]) == ListedSoFar(index, edges, v, i + 1, index[i + 1])
  {
    assert edges[index[i + 1]..index[i + 1]] == [];
    assert edges[index[i]..index[i + 1]] == InputPins(index, edges, i);
    assert NetsWith(index, edges, v, i + 1)
        == NetsWith(index, edges, v, i) + if v in Elements(InputPins(index, edges, i)) then {i} else {};
  }
}
