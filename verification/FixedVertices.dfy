/** Putting fixed nodes where they must go: a permutation of the block ids of the free
    nodes is found by a maximum-weight matching and applied to the hypergraph. */
module FixedVertices {
  import opened Sums
  import opened NLevel
  import opened Partitions
  import opened Layout
  import opened PinCounts
  import opened Moves
  import opened HypergraphClass
  import opened FlowNetwork
  import opened Koenig
  import opened Assignment
  import opened Relabelling

  /** The hypergraph, its free nodes partitioned, its fixed nodes not yet. */
  ghost predicate FreePartitioned(g: GenericHypergraph, fixedPart: Partition)
    reads g, g.incidence
  {
    && g.Rep() && g.CountsExact() && Valid(g.Abs())
    && Splits(g.Abs(), g.Part(), fixedPart, g.k)
  }

  /** The nodes fixed to each block. */
  method GroupFixed(fixedVertices: seq<nat>, fixedPart: Partition, k: nat) returns (groups: seq<seq<nat>>)
    requires forall v | v in fixedVertices :: 0 <= BlockOf(fixedPart, v) < k
    ensures |groups| == k
    ensures forall i, v: nat | 0 <= i < k :: v in groups[i] <==> v in fixedVertices && BlockOf(fixedPart, v) == i
  {
    groups := seq(k, _ => []);
    for a := 0 to |fixedVertices|
      invariant |groups| == k
      invariant forall i, v: nat | 0 <= i < k ::
                  v in groups[i] <==> v in fixedVertices[..a] && BlockOf(fixedPart, v) == i
    {
      var v := fixedVertices[a];
      assert v in fixedVertices;
      assert fixedVertices[..a + 1] == fixedVertices[..a] + [v];
      groups := groups[fixedPart[v] := groups[fixedPart[v]] + [v]];
    }
    assert fixedVertices[..|fixedVertices|] == fixedVertices;
  }

  lemma OneMoreFixed(pins: set<nat>, fixedPart: Partition, p: nat)
    ensures FixedBlocks(pins + {p}, fixedPart)
         == FixedBlocks(pins, fixedPart) + if IsFixed(fixedPart, p) then {BlockOf(fixedPart, p)} else {}
  {
    if IsFixed(fixedPart, p) {
      assert FixedPins(pins + {p}, fixedPart) == FixedPins(pins, fixedPart) + {p};
    } else {
      assert FixedPins(pins + {p}, fixedPart) == FixedPins(pins, fixedPart);
    }
  }

  /** Exactly the blocks that these pins are fixed to have been visited. */
  ghost predicate BlocksVisited(pins: set<nat>, fixedPart: Partition, visited: seq<bool>, count: int) {
    && count == |FixedBlocks(pins, fixedPart)|
    && forall b {:trigger visited[b]} | 0 <= b < |visited| :: visited[b] <==> b in FixedBlocks(pins, fixedPart)
  }

  /** Visits the block of one more pin, if it is fixed. */
  method VisitPin(pin: nat, fixedPart: Partition, visited: seq<bool>, count: int, ghost pins: set<nat>)
    returns (visited': seq<bool>, count': int)
    requires BlocksVisited(pins, fixedPart, visited, count)
    requires IsFixed(fixedPart, pin) ==> 0 <= BlockOf(fixedPart, pin) < |visited|
    ensures |visited'| == |visited| && BlocksVisited(pins + {pin}, fixedPart, visited', count')
  {
    OneMoreFixed(pins, fixedPart, pin);
    visited', count' := visited, count;
    if IsFixed(fixedPart, pin) {
      var part := BlockOf(fixedPart, pin);
      if !visited[part] {
        count' := count + 1;
        visited' := visited[part := true];
      } else {
        assert FixedBlocks(pins + {pin}, fixedPart) == FixedBlocks(pins, fixedPart);
      }
    }
  }

  /** The number of blocks that the fixed pins of a net must go to. */
  method FixedConnectivityOf(g: GenericHypergraph, he: nat, fixedPart: Partition) returns (connectivity: int)
    requires g.Rep() && he < |g.rows| && PinsSplit(g.Abs().nets[he].pins, g.Part(), fixedPart, g.k)
    ensures connectivity == |FixedBlocks(g.Abs().nets[he].pins, fixedPart)|
  {
    connectivity := 0;
    var visited := seq(g.k, _ => false);
    g.AllPins(he);
    assert FixedPins({}, fixedPart) == {} && FixedBlocks({}, fixedPart) == {};
    for slot := g.hyperedges[he].begin to g.hyperedges[he].FirstInvalidEntry()
      invariant |visited| == g.k && BlocksVisited(g.PinsBefore(he, slot), fixedPart, visited, connectivity)
    {
      g.NextPin(he, slot);
      visited, connectivity := VisitPin(g.incidence[slot], fixedPart, visited, connectivity, g.PinsBefore(he, slot));
    }
  }

  /** The first fixed connectivities are right. */
  ghost predicate FixedCounted(h: Hypergraph, fixedPart: Partition, fixedConnectivity: seq<int>, n: nat) {
    && |fixedConnectivity| == |h.nets|
    && forall e {:trigger fixedConnectivity[e]} | 0 <= e < n && e < |h.nets| && h.nets[e].enabled ::
         fixedConnectivity[e] == |FixedBlocks(h.nets[e].pins, fixedPart)|
  }

  /** The fixed connectivity of every net, and the weight of all nets. */
  method FixedConnectivities(g: GenericHypergraph, fixedPart: Partition)
    returns (fixedConnectivity: seq<int>, total: int)
    requires FreePartitioned(g, fixedPart)
    ensures FixedCounted(g.Abs(), fixedPart, fixedConnectivity, |g.rows|)
    ensures total == NetWeight(g.Abs())
  {
    ghost var weights := NetWeights(g.Abs());
    fixedConnectivity, total := seq(|g.rows|, _ => 0), 0;
    for e := 0 to |g.rows|
      invariant FixedCounted(g.Abs(), fixedPart, fixedConnectivity, e) && total == Sum(weights[..e])
    {
      SumPrefix(weights, e);
      if g.hyperedges[e].valid {
        total := total + g.hyperedges[e].weight;
        NetPinsSplit(g.Abs(), g.Part(), fixedPart, g.k, e);
        var connectivity := FixedConnectivityOf(g, e, fixedPart);
        fixedConnectivity := fixedConnectivity[e := connectivity];
      }
    }
    assert weights[..|g.rows|] == weights;
  }

  /** The connectivity set of a net whose fixed pins have no block yet. */
  lemma FreeBlocksFound(r: Row, pins: set<nat>, part: Partition, fixedPart: Partition, k: nat)
    requires Exact(r, pins, part, k) && PinsSplit(pins, part, fixedPart, k)
    requires forall p | p in pins && IsFixed(fixedPart, p) :: part[p] == INVALID_PARTITION
    ensures Elements(r.blocks) == FreeBlocks(pins, part, fixedPart)
    ensures r.connectivity == |FreeBlocks(pins, part, fixedPart)|
  {
    forall b | b in FreeBlocks(pins, part, fixedPart) ensures b in r.blocks {
      var p :| p in FreePins(pins, fixedPart) && BlockOf(part, p) == b;
      assert p in PinsIn(pins, part, b);
      assert r.counts[b] == PinCount(pins, part, b);
    }
    forall b | b in r.blocks ensures b in FreeBlocks(pins, part, fixedPart) {
      assert r.counts[b] == PinCount(pins, part, b);
      var p :| p in PinsIn(pins, part, b);
      assert p in FreePins(pins, fixedPart);
    }
    DistinctSize(r.blocks);
  }

  lemma FreeBlocksOfNet(g: GenericHypergraph, he: nat, fixedPart: Partition)
    requires FreePartitioned(g, fixedPart) && HasNet(g.Abs(), he)
    ensures Elements(g.rows[he].blocks) == FreeBlocks(g.Abs().nets[he].pins, g.Part(), fixedPart)
    ensures g.rows[he].connectivity == |FreeBlocks(g.Abs().nets[he].pins, g.Part(), fixedPart)|
    ensures NoDuplicates(g.rows[he].blocks) && forall b | b in g.rows[he].blocks :: 0 <= b < g.k
  {
    var h := g.Abs();
    NetPinsSplit(h, g.Part(), fixedPart, g.k, he);
    assert RowFits(g.rows[he], h.nets[he], g.Part(), g.k);
    forall p | p in h.nets[he].pins && IsFixed(fixedPart, p) ensures g.Part()[p] == INVALID_PARTITION {
      assert HasNode(h, p);
    }
    FreeBlocksFound(g.rows[he], h.nets[he].pins, g.Part(), fixedPart, g.k);
  }

  /** Adds w to the entries of a row at the given blocks. */
  method AddAt(row: seq<int>, blocks: seq<int>, w: int) returns (row': seq<int>)
    requires NoDuplicates(blocks) && forall b | b in blocks :: 0 <= b < |row|
    ensures |row'| == |row|
    ensures forall j {:trigger row'[j]} | 0 <= j < |row| :: row'[j] == row[j] + if j in blocks then w else 0
  {
    row' := row;
    for a := 0 to |blocks|
      invariant |row'| == |row|
      invariant forall j {:trigger row'[j]} | 0 <= j < |row| :: row'[j] == row[j] + if j in blocks[..a] then w else 0
    {
      assert blocks[a] in blocks && blocks[a] !in blocks[..a];
      row' := row'[blocks[a] := row'[blocks[a]] + w];
    }
    assert blocks[..|blocks|] == blocks;
  }

  /** What the nets in visited add to the pair of fixed block i and block j. */
  ghost function VisitedTotal(obj: Objective, h: Hypergraph, part: Partition, fixedPart: Partition, i: int, j: int,
                              visited: seq<bool>): int
    requires |visited| == |h.nets|
  {
    Sum(seq(|h.nets|, e requires 0 <= e < |h.nets| =>
              if visited[e] then PairWeight(obj, h.nets[e], part, fixedPart, i, j) else 0))
  }

  ghost predicate RowSoFar(row: seq<int>, obj: Objective, h: Hypergraph, part: Partition, fixedPart: Partition, i: int,
                           visited: seq<bool>)
    requires |visited| == |h.nets|
  {
    forall j {:trigger row[j]} | 0 <= j < |row| :: row[j] == VisitedTotal(obj, h, part, fixedPart, i, j, visited)
  }

  lemma OneMoreVisited(obj: Objective, h: Hypergraph, part: Partition, fixedPart: Partition, i: int, j: int,
                       visited: seq<bool>, e: nat)
    requires |visited| == |h.nets| && e < |h.nets| && !visited[e]
    ensures VisitedTotal(obj, h, part, fixedPart, i, j, visited[e := true])
         == VisitedTotal(obj, h, part, fixedPart, i, j, visited) + PairWeight(obj, h.nets[e], part, fixedPart, i, j)
  {
    var before := seq(|h.nets|, d requires 0 <= d < |h.nets| =>
                        if visited[d] then PairWeight(obj, h.nets[d], part, fixedPart, i, j) else 0);
    var visited', w := visited[e := true], PairWeight(obj, h.nets[e], part, fixedPart, i, j);
    SumUpdate(before, e, w);
    assert seq(|h.nets|, d requires 0 <= d < |h.nets| =>
                 if visited'[d] then PairWeight(obj, h.nets[d], part, fixedPart, i, j) else 0)
        == before[e := w];
  }

  lemma RowGrows(row: seq<int>, row': seq<int>, obj: Objective, h: Hypergraph, part: Partition, fixedPart: Partition,
                 i: int, visited: seq<bool>, e: nat)
    requires |visited| == |h.nets| && e < |h.nets| && !visited[e] && |row| == |row'|
    requires RowSoFar(row, obj, h, part, fixedPart, i, visited)
    requires forall j {:trigger row'[j]} | 0 <= j < |row| ::
               row'[j] == row[j] + PairWeight(obj, h.nets[e], part, fixedPart, i, j)
    ensures RowSoFar(row', obj, h, part, fixedPart, i, visited[e := true])
  {
    forall j | 0 <= j < |row'| ensures row'[j] == VisitedTotal(obj, h, part, fixedPart, i, j, visited[e := true]) {
      OneMoreVisited(obj, h, part, fixedPart, i, j, visited, e);
      assert row[j] == VisitedTotal(obj, h, part, fixedPart, i, j, visited);
    }
  }

  /** Adds what net he contributes to the row of fixed block i. */
  method AddNet(g: GenericHypergraph, he: nat, row: seq<int>, obj: Objective, fixedPart: Partition,
                fixedConnectivity: int, ghost i: int, ghost visited: seq<bool>)
    returns (row': seq<int>)
    requires FreePartitioned(g, fixedPart) && HasNet(g.Abs(), he)
    requires fixedConnectivity == |FixedBlocks(g.Abs().nets[he].pins, fixedPart)|
    requires i in FixedBlocks(g.Abs().nets[he].pins, fixedPart)
    requires |visited| == |g.Abs().nets| && !visited[he] && |row| == g.k
    requires RowSoFar(row, obj, g.Abs(), g.Part(), fixedPart, i, visited)
    ensures |row'| == g.k && RowSoFar(row', obj, g.Abs(), g.Part(), fixedPart, i, visited[he := true])
  {
    FreeBlocksOfNet(g, he, fixedPart);
    row' := row;
    if obj == KM1 {
      row' := AddAt(row, g.rows[he].blocks, g.hyperedges[he].weight);
    } else if g.rows[he].connectivity == 1 && fixedConnectivity == 1 {
      row' := AddAt(row, g.rows[he].blocks, g.hyperedges[he].weight);
    }
    forall j | 0 <= j < g.k
      ensures row'[j] == row[j] + PairWeight(obj, g.Abs().nets[he], g.Part(), fixedPart, i, j)
    {
      assert j in g.rows[he].blocks <==> j in Elements(g.rows[he].blocks);
    }
    RowGrows(row, row', obj, g.Abs(), g.Part(), fixedPart, i, visited, he);
  }

  /** Every visited net has a pin fixed to block i. */
  ghost predicate VisitedFixed(h: Hypergraph, fixedPart: Partition, i: int, visited: seq<bool>) {
    && |visited| == |h.nets|
    && forall e {:trigger visited[e]} | 0 <= e < |h.nets| && visited[e] ::
         h.nets[e].enabled && i in FixedBlocks(h.nets[e].pins, fixedPart)
  }

  /** Adds what the nets of a node fixed to block i contribute, leaving out those that
      have been visited before. */
  method AddNetsOf(g: GenericHypergraph, v: nat, i: nat, row: seq<int>, visited: seq<bool>, obj: Objective,
                   fixedPart: Partition, fixedConnectivity: seq<int>)
    returns (row': seq<int>, visited': seq<bool>)
    requires FreePartitioned(g, fixedPart) && HasNode(g.Abs(), v) && BlockOf(fixedPart, v) == i
    requires FixedCounted(g.Abs(), fixedPart, fixedConnectivity, |g.rows|)
    requires VisitedFixed(g.Abs(), fixedPart, i, visited)
    requires |row| == g.k && RowSoFar(row, obj, g.Abs(), g.Part(), fixedPart, i, visited)
    ensures VisitedFixed(g.Abs(), fixedPart, i, visited')
    ensures |row'| == g.k && RowSoFar(row', obj, g.Abs(), g.Part(), fixedPart, i, visited')
    ensures forall e | 0 <= e < |visited| :: visited'[e] <==> visited[e] || e in g.hypernodes[v].incidentNets
  {
    row', visited' := row, visited;
    var nets := g.hypernodes[v].incidentNets;
    for a := 0 to |nets|
      invariant VisitedFixed(g.Abs(), fixedPart, i, visited')
      invariant |row'| == g.k && RowSoFar(row', obj, g.Abs(), g.Part(), fixedPart, i, visited')
      invariant forall e | 0 <= e < |visited| :: visited'[e] <==> visited[e] || e in nets[..a]
    {
      var he := nets[a];
      assert nets[..a + 1] == nets[..a] + [he];
      NetAtFixed(g, v, he, i, fixedPart);
      if !visited'[he] {
        assert fixedConnectivity[he] == |FixedBlocks(g.Abs().nets[he].pins, fixedPart)|;
        row' := AddNet(g, he, row', obj, fixedPart, fixedConnectivity[he], i, visited');
        visited' := visited'[he := true];
      }
    }
    assert nets[..|nets|] == nets;
  }

  lemma NetAtFixed(g: GenericHypergraph, v: nat, he: nat, i: int, fixedPart: Partition)
    requires FreePartitioned(g, fixedPart) && HasNode(g.Abs(), v) && BlockOf(fixedPart, v) == i
             && i != INVALID_PARTITION
    requires he in g.hypernodes[v].incidentNets
    ensures HasNet(g.Abs(), he) && i in FixedBlocks(g.Abs().nets[he].pins, fixedPart)
  {
    assert he in g.Abs().nodes[v].nets;
    assert v in g.Abs().nets[he].pins;
    assert v in FixedPins(g.Abs().nets[he].pins, fixedPart);
  }

  lemma NothingVisited(obj: Objective, h: Hypergraph, part: Partition, fixedPart: Partition, i: int, j: int,
                       visited: seq<bool>)
    requires |visited| == |h.nets| && forall e | 0 <= e < |visited| :: !visited[e]
    ensures VisitedTotal(obj, h, part, fixedPart, i, j, visited) == 0
  {
    SumConstant(seq(|h.nets|, e requires 0 <= e < |h.nets| =>
                      if visited[e] then PairWeight(obj, h.nets[e], part, fixedPart, i, j) else 0), 0);
  }

  /** Once the nets of all nodes fixed to block i have been visited, its row is complete. */
  lemma RowComplete(obj: Objective, h: Hypergraph, part: Partition, fixedPart: Partition, i: int, j: int,
                    visited: seq<bool>)
    requires VisitedFixed(h, fixedPart, i, visited)
    requires forall e {:trigger visited[e]} | 0 <= e < |h.nets| && h.nets[e].enabled
             && i in FixedBlocks(h.nets[e].pins, fixedPart) :: visited[e]
    ensures VisitedTotal(obj, h, part, fixedPart, i, j, visited) == PairTotal(obj, h, part, fixedPart, i, j)
  {
    assert seq(|h.nets|, e requires 0 <= e < |h.nets| =>
                 if visited[e] then PairWeight(obj, h.nets[e], part, fixedPart, i, j) else 0)
        == seq(|h.nets|, e requires 0 <= e < |h.nets| => PairWeight(obj, h.nets[e], part, fixedPart, i, j));
  }

  /** The list of fixed nodes is complete. */
  ghost predicate ListsFixed(h: Hypergraph, fixedVertices: seq<nat>, fixedPart: Partition) {
    && |fixedPart| == |h.nodes|
    && forall v: nat {:trigger IsFixed(fixedPart, v)} | v < |h.nodes| ::
         v in fixedVertices <==> h.nodes[v].enabled && IsFixed(fixedPart, v)
  }

  /** The nodes of the group are those fixed to block i. */
  ghost predicate IsGroup(h: Hypergraph, fixedPart: Partition, i: int, group: seq<nat>) {
    && i != INVALID_PARTITION
    && (forall v: nat {:trigger v in group} | v in group :: HasNode(h, v) && BlockOf(fixedPart, v) == i)
    && (forall v: nat {:trigger BlockOf(fixedPart, v)} | HasNode(h, v) && BlockOf(fixedPart, v) == i :: v in group)
  }

  lemma VisitedAll(h: Hypergraph, fixedPart: Partition, i: int, group: seq<nat>, visited: seq<bool>)
    requires Valid(h) && IsGroup(h, fixedPart, i, group) && |visited| == |h.nets|
    requires forall e, v {:trigger e in h.nodes[v].nets} | 0 <= e < |visited| && v in group && v < |h.nodes|
             && e in h.nodes[v].nets :: visited[e]
    ensures forall e {:trigger visited[e]} | 0 <= e < |h.nets| && h.nets[e].enabled
            && i in FixedBlocks(h.nets[e].pins, fixedPart) :: visited[e]
  {
    forall e | 0 <= e < |h.nets| && h.nets[e].enabled && i in FixedBlocks(h.nets[e].pins, fixedPart)
      ensures visited[e]
    {
      var v :| v in FixedPins(h.nets[e].pins, fixedPart) && BlockOf(fixedPart, v) == i;
      assert v in h.nets[e].pins;
      assert HasNode(h, v) && e in h.nodes[v].nets && v in group;
    }
  }

  /** The row of fixed block i, before pairs are discarded. */
  method RowOf(g: GenericHypergraph, i: nat, group: seq<nat>, obj: Objective, fixedPart: Partition,
               fixedConnectivity: seq<int>)
    returns (row: seq<int>)
    requires FreePartitioned(g, fixedPart) && FixedCounted(g.Abs(), fixedPart, fixedConnectivity, |g.rows|)
    requires IsGroup(g.Abs(), fixedPart, i, group)
    ensures |row| == g.k
    ensures forall j {:trigger row[j]} | 0 <= j < g.k :: row[j] == PairTotal(obj, g.Abs(), g.Part(), fixedPart, i, j)
  {
    ghost var h := g.Abs();
    var visited: seq<bool>;
    row, visited := seq(g.k, _ => 0), seq(|g.rows|, _ => false);
    forall j | 0 <= j < g.k ensures row[j] == VisitedTotal(obj, h, g.Part(), fixedPart, i, j, visited) {
      NothingVisited(obj, h, g.Part(), fixedPart, i, j, visited);
    }
    for a := 0 to |group|
      invariant VisitedFixed(h, fixedPart, i, visited)
      invariant |row| == g.k && RowSoFar(row, obj, h, g.Part(), fixedPart, i, visited)
      invariant forall e, v {:trigger e in h.nodes[v].nets} | 0 <= e < |visited| && v in group[..a] && v < |h.nodes|
                && e in h.nodes[v].nets :: visited[e]
    {
      assert group[a] in group && group[..a + 1] == group[..a] + [group[a]];
      assert h.nodes[group[a]].nets == Elements(g.hypernodes[group[a]].incidentNets);
      row, visited := AddNetsOf(g, group[a], i, row, visited, obj, fixedPart, fixedConnectivity);
    }
    assert group[..|group|] == group;
    VisitedAll(h, fixedPart, i, group, visited);
    forall j | 0 <= j < g.k ensures row[j] == PairTotal(obj, h, g.Part(), fixedPart, i, j) {
      RowComplete(obj, h, g.Part(), fixedPart, i, j, visited);
    }
  }

  /** Discards the pairs of fixed block i that would become too heavy. */
  method DiscardHeavy(i: nat, row: seq<int>, w: Weights, total: int) returns (row': seq<int>)
    requires SizedFor(w, |row|) && i < |row|
    ensures |row'| == |row|
    ensures forall j {:trigger row'[j]} | 0 <= j < |row| :: row'[j] == if Discarded(w, i, j) then -total else row[j]
  {
    row' := row;
    for j := 0 to |row|
      invariant |row'| == |row|
      invariant forall b {:trigger row'[b]} | 0 <= b < |row| ::
                  row'[b] == if b < j && Discarded(w, i, b) then -total else row[b]
    {
      if w.fixed[i] + w.free[j] > w.max[i] {
        row' := row'[j := -total];
      }
    }
  }

  /** The weights of the blocks, by the part infos. */
  function FreeWeights(info: seq<PartInfo>): seq<int> {
    seq(|info|, j requires 0 <= j < |info| => info[j].weight)
  }

  /** Sets up the weighted bipartite graph of fixed blocks and blocks. */
  method SetupWeightedBipartiteMatchingGraph(g: GenericHypergraph, fixedVertices: seq<nat>, fixedPart: Partition,
                                             fixedPartWeights: seq<int>, maxPartWeights: seq<int>, obj: Objective)
    returns (graph: Matrix)
    requires FreePartitioned(g, fixedPart) && ListsFixed(g.Abs(), fixedVertices, fixedPart)
    requires forall v | v in fixedVertices :: v < |fixedPart|
    requires |fixedPartWeights| == |maxPartWeights| == g.k
    ensures |graph| == g.k
    ensures IsMatchingGraph(graph, obj, g.Abs(), g.Part(), fixedPart,
                            Weights(fixedPartWeights, FreeWeights(g.partInfo), maxPartWeights))
  {
    var w := Weights(fixedPartWeights, FreeWeights(g.partInfo), maxPartWeights);
    FixedInRange(g, fixedVertices, fixedPart);
    var groups := GroupFixed(fixedVertices, fixedPart, g.k);
    var fixedConnectivity, total := FixedConnectivities(g, fixedPart);
    graph := [];
    for i := 0 to g.k
      invariant |graph| == i && forall a | 0 <= a < i :: |graph[a]| == g.k
      invariant forall a, j {:trigger graph[a][j]} | 0 <= a < i && 0 <= j < g.k ::
                  graph[a][j] == if Discarded(w, a, j) then -total
                    else PairTotal(obj, g.Abs(), g.Part(), fixedPart, a, j)
    {
      GroupIsComplete(g, fixedVertices, fixedPart, i, groups[i]);
      var row := RowOf(g, i, groups[i], obj, fixedPart, fixedConnectivity);
      row := DiscardHeavy(i, row, w, total);
      graph := graph + [row];
    }
  }

  lemma FixedInRange(g: GenericHypergraph, fixedVertices: seq<nat>, fixedPart: Partition)
    requires FreePartitioned(g, fixedPart) && ListsFixed(g.Abs(), fixedVertices, fixedPart)
    requires forall v | v in fixedVertices :: v < |fixedPart|
    ensures forall v | v in fixedVertices :: 0 <= BlockOf(fixedPart, v) < g.k
  {
    forall v | v in fixedVertices ensures 0 <= BlockOf(fixedPart, v) < g.k {
      assert IsFixed(fixedPart, v) && fixedPart[v] == BlockOf(fixedPart, v);
    }
  }

  lemma GroupIsComplete(g: GenericHypergraph, fixedVertices: seq<nat>, fixedPart: Partition, i: nat, group: seq<nat>)
    requires FreePartitioned(g, fixedPart) && ListsFixed(g.Abs(), fixedVertices, fixedPart) && i < g.k
    requires forall v | v in fixedVertices :: v < |fixedPart|
    requires forall v: nat :: v in group <==> v in fixedVertices && BlockOf(fixedPart, v) == i
    ensures IsGroup(g.Abs(), fixedPart, i, group)
  {
    forall v: nat | HasNode(g.Abs(), v) && BlockOf(fixedPart, v) == i ensures v in group {
      assert IsFixed(fixedPart, v);
    }
    forall v: nat | v in group ensures HasNode(g.Abs(), v) {
      assert v in fixedVertices && IsFixed(fixedPart, v);
    }
  }

  // ------------------------------------------------- applying the permutation

  /** The permutation that a perfect matching describes. */
  method PermutationOf(k: nat, matching: seq<Edge>) returns (permutation: seq<nat>)
    requires IsPerfect(k, matching)
    ensures |permutation| == k && Follows(permutation, matching) && IsPermutation(k, permutation)
  {
    permutation := seq(k, _ => 0);
    for a := 0 to |matching|
      invariant |permutation| == k
      invariant forall b | 0 <= b < a :: permutation[matching[b].1] == matching[b].0
    {
      var from, to := matching[a].1, matching[a].0;
      permutation := permutation[from := to];
    }
    MatchingPermutes(k, matching, permutation);
  }

  /** The nodes before v have been put where they go. */
  ghost predicate Moved(h: Hypergraph, before: Partition, now: Partition, fixedPart: Partition, perm: seq<nat>,
                        v: nat) {
    && |now| == |before| == |h.nodes|
    && forall x {:trigger now[x]} | 0 <= x < |now| ::
         now[x] == if x < v && h.nodes[x].enabled then Final(before, fixedPart, perm)[x] else before[x]
  }

  /** Puts node v where it goes. */
  method MoveNode(g: GenericHypergraph, v: nat, fixedPart: Partition, permutation: seq<nat>, ghost before: Partition)
    requires g.Rep() && g.CountsExact() && Valid(g.Abs()) && InfoExact(g.Abs(), g.Part(), g.partInfo)
    requires Splits(g.Abs(), before, fixedPart, g.k) && IsPermutation(g.k, permutation)
    requires HasNode(g.Abs(), v) && Moved(g.Abs(), before, g.Part(), fixedPart, permutation, v)
    modifies g
    ensures g.Rep() && g.CountsExact() && InfoExact(g.Abs(), g.Part(), g.partInfo)
    ensures g.Abs() == old(g.Abs()) && Moved(g.Abs(), before, g.Part(), fixedPart, permutation, v + 1)
  {
    assert g.Part()[v] == before[v];
    assert fixedPart[v] == BlockOf(fixedPart, v);
    if IsFixed(fixedPart, v) {
      g.SetNodePart(v, BlockOf(fixedPart, v));
    } else {
      var from := g.hypernodes[v].partId;
      var to := permutation[from];
      if from != to {
        var internal := g.ChangeNodePart(v, from, to);
      }
    }
  }

  /** Puts all nodes where they go. */
  method MoveNodes(g: GenericHypergraph, fixedPart: Partition, permutation: seq<nat>)
    requires FreePartitioned(g, fixedPart) && InfoExact(g.Abs(), g.Part(), g.partInfo)
             && IsPermutation(g.k, permutation)
    modifies g
    ensures g.Rep() && g.CountsExact() && InfoExact(g.Abs(), g.Part(), g.partInfo)
    ensures g.Abs() == old(g.Abs()) && Moved(g.Abs(), old(g.Part()), g.Part(), fixedPart, permutation, |g.Part()|)
  {
    ghost var before := g.Part();
    for v := 0 to |g.hypernodes|
      invariant g.Rep() && g.CountsExact() && InfoExact(g.Abs(), g.Part(), g.partInfo) && g.Abs() == old(g.Abs())
      invariant Moved(g.Abs(), before, g.Part(), fixedPart, permutation, v)
    {
      if g.hypernodes[v].valid {
        MoveNode(g, v, fixedPart, permutation, before);
      }
    }
  }

  /** Only the blocks of enabled nodes matter. */
  lemma OnlyEnabledMatter(obj: Objective, h: Hypergraph, part: Partition, part': Partition)
    requires Valid(h) && |part| == |part'| == |h.nodes|
    requires forall v {:trigger part[v]} | 0 <= v < |h.nodes| && h.nodes[v].enabled :: part[v] == part'[v]
    ensures ObjectiveOf(obj, h, part) == ObjectiveOf(obj, h, part')
    ensures forall b :: BlockWeight(h, part, b) == BlockWeight(h, part', b)
  {
    forall e | 0 <= e < |h.nets| ensures ObjectiveOfNet(obj, h.nets[e], part) == ObjectiveOfNet(obj, h.nets[e], part') {
      if h.nets[e].enabled {
        forall p | p in h.nets[e].pins ensures BlockOf(part, p) == BlockOf(part', p) {
          assert HasNode(h, p) && part[p] == part'[p];
        }
        assert Blocks(h.nets[e].pins, part) == Blocks(h.nets[e].pins, part');
      }
    }
    ObjectiveIsSum(obj, h, part);
    ObjectiveIsSum(obj, h, part');
    assert seq(|h.nets|, e requires 0 <= e < |h.nets| => ObjectiveOfNet(obj, h.nets[e], part))
        == seq(|h.nets|, e requires 0 <= e < |h.nets| => ObjectiveOfNet(obj, h.nets[e], part'));
    forall b ensures BlockWeight(h, part, b) == BlockWeight(h, part', b) {
      assert seq(|h.nodes|, v requires 0 <= v < |h.nodes| => WeightIn(h, part, b, v))
          == seq(|h.nodes|, v requires 0 <= v < |h.nodes| => WeightIn(h, part', b, v));
    }
  }

  /** The final partition is optimal, if it is balanced: no relabelling that is balanced
      has a smaller objective. */
  ghost predicate OptimalIfBalanced(obj: Objective, h: Hypergraph, part: Partition, fixedPart: Partition, k: nat,
                                    max: seq<int>, final: Partition) {
    Balanced(h, final, max) ==>
      forall other {:trigger Final(part, fixedPart, other)} | IsPermutation(k, other)
        && Balanced(h, Final(part, fixedPart, other), max) ::
        ObjectiveOf(obj, h, final) <= ObjectiveOf(obj, h, Final(part, fixedPart, other))
  }

  lemma RelabellingIsOptimal(g: Matrix, obj: Objective, h: Hypergraph, part: Partition, fixedPart: Partition,
                             w: Weights, m: seq<Edge>, perm: seq<nat>, final: Partition)
    requires Valid(h) && Splits(h, part, fixedPart, |g|) && IsMatchingGraph(g, obj, h, part, fixedPart, w)
    requires IsMaximumWeight(g, m) && |perm| == |g| && Follows(perm, m) && IsPermutation(|g|, perm)
    requires forall j {:trigger w.free[j]} | 0 <= j < |g| :: w.free[j] == BlockWeight(h, part, j)
    requires forall i {:trigger w.fixed[i]} | 0 <= i < |g| :: w.fixed[i] == BlockWeight(h, fixedPart, i)
    requires Moved(h, part, final, fixedPart, perm, |final|)
    ensures OptimalIfBalanced(obj, h, part, fixedPart, |g|, w.max, final)
  {
    OnlyEnabledMatter(obj, h, final, Final(part, fixedPart, perm));
    if Balanced(h, final, w.max) {
      assert Balanced(h, Final(part, fixedPart, perm), w.max);
      BalancedIffAvoids(h, part, fixedPart, |g|, w, perm);
      forall other | IsPermutation(|g|, other) && Balanced(h, Final(part, fixedPart, other), w.max)
        ensures ObjectiveOf(obj, h, final) <= ObjectiveOf(obj, h, Final(part, fixedPart, other))
      {
        BalancedIffAvoids(h, part, fixedPart, |g|, w, other);
        MatchingMinimisesObjective(g, obj, h, part, fixedPart, w, m, perm, other);
      }
    }
  }

  /** With nets that weigh more than free and fixed blocks overlap, the result is balanced
      whenever some relabelling is. */
  lemma RelabellingIsBalanced(g: Matrix, obj: Objective, h: Hypergraph, part: Partition, fixedPart: Partition,
                              w: Weights, m: seq<Edge>, perm: seq<nat>, final: Partition)
    requires Valid(h) && Splits(h, part, fixedPart, |g|) && IsMatchingGraph(g, obj, h, part, fixedPart, w)
    requires IsMaximumWeight(g, m) && |perm| == |g| && Follows(perm, m) && IsPermutation(|g|, perm)
    requires forall j {:trigger w.free[j]} | 0 <= j < |g| :: w.free[j] == BlockWeight(h, part, j)
    requires forall i {:trigger w.fixed[i]} | 0 <= i < |g| :: w.fixed[i] == BlockWeight(h, fixedPart, i)
    requires Moved(h, part, final, fixedPart, perm, |final|)
    requires NonNegativeWeights(h) && Overlap(obj, h, part, fixedPart) < NetWeight(h)
    ensures CanBalance(h, part, fixedPart, |g|, w.max) ==> Balanced(h, final, w.max)
  {
    OnlyEnabledMatter(obj, h, final, Final(part, fixedPart, perm));
    if other :| IsPermutation(|g|, other) && Balanced(h, Final(part, fixedPart, other), w.max) {
      BalancedIffAvoids(h, part, fixedPart, |g|, w, other);
      DiscardingIsEffective(g, obj, h, part, fixedPart, w, m, perm, other);
      BalancedIffAvoids(h, part, fixedPart, |g|, w, perm);
    }
  }

  /** Relabels the blocks of the free nodes and puts the fixed nodes into theirs, by a
      permutation of maximum weight. If the result is balanced, it is the best of all balanced
      relabellings; if the nets weigh more than free and fixed blocks overlap, it is balanced
      whenever some relabelling is. */
  method PartitionFixed(g: GenericHypergraph, fixedVertices: seq<nat>, fixedPart: Partition,
                        fixedPartWeights: seq<int>, maxPartWeights: seq<int>, obj: Objective)
    returns (permutation: seq<nat>)
    requires FreePartitioned(g, fixedPart) && InfoExact(g.Abs(), g.Part(), g.partInfo)
    requires ListsFixed(g.Abs(), fixedVertices, fixedPart) && forall v | v in fixedVertices :: v < |fixedPart|
    requires |fixedPartWeights| == |maxPartWeights| == g.k
    requires forall i {:trigger fixedPartWeights[i]} | 0 <= i < g.k ::
               fixedPartWeights[i] == BlockWeight(g.Abs(), fixedPart, i)
    modifies g
    ensures g.Rep() && g.CountsExact() && InfoExact(g.Abs(), g.Part(), g.partInfo) && g.Abs() == old(g.Abs())
    ensures IsPermutation(g.k, permutation)
    ensures Moved(g.Abs(), old(g.Part()), g.Part(), fixedPart, permutation, |g.Part()|)
    ensures IsHeaviest(obj, g.Abs(), old(g.Part()), fixedPart,
                       Weights(fixedPartWeights, old(FreeWeights(g.partInfo)), maxPartWeights), permutation)
    ensures OptimalIfBalanced(obj, g.Abs(), old(g.Part()), fixedPart, g.k, maxPartWeights, g.Part())
    ensures NonNegativeWeights(g.Abs()) && Overlap(obj, g.Abs(), old(g.Part()), fixedPart) < NetWeight(g.Abs())
            && CanBalance(g.Abs(), old(g.Part()), fixedPart, g.k, maxPartWeights) ==>
              Balanced(g.Abs(), g.Part(), maxPartWeights)
  {
    ghost var h, part := g.Abs(), g.Part();
    ghost var w := Weights(fixedPartWeights, FreeWeights(g.partInfo), maxPartWeights);
    assert forall j {:trigger w.free[j]} | 0 <= j < g.k :: w.free[j] == BlockWeight(h, part, j);
    var graph := SetupWeightedBipartiteMatchingGraph(g, fixedVertices, fixedPart, fixedPartWeights, maxPartWeights,
                                                     obj);
    var matching := FindMaximumWeightedBipartiteMatching(graph);
    permutation := PermutationOf(g.k, matching);
    MoveNodes(g, fixedPart, permutation);
    MatchingIsHeaviest(graph, obj, h, part, fixedPart, w, matching, permutation);
    RelabellingIsOptimal(graph, obj, h, part, fixedPart, w, matching, permutation, g.Part());
    if NonNegativeWeights(h) && Overlap(obj, h, part, fixedPart) < NetWeight(h) {
      RelabellingIsBalanced(graph, obj, h, part, fixedPart, w, matching, permutation, g.Part());
    }
  }
}
