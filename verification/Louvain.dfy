/** The levels of the Louvain method: graphs are clustered and contracted again and again,
    and the clusters of the coarsest one are taken back to the finest. */
module Louvain {
  import opened ClusterGraph
  import opened GraphContraction

  /** What clusters the pass on each level leaves the nodes of the graph in. */
  type Passes = (nat, seq<seq<Edge>>) -> seq<int>

  ghost predicate Clusters(cluster: seq<int>, n: nat) {
    |cluster| == n && forall v {:trigger cluster[v]} | 0 <= v < n :: 0 <= cluster[v] < n
  }

  ghost predicate LeaveClusters(passes: Passes) {
    forall i, rows {:trigger passes(i, rows)} :: Clusters(passes(i, rows), |rows|)
  }

  /** The graphs of all levels, what their nodes become on the next one, and where the
      hypernodes are. */
  datatype Levels = Levels(rows: seq<seq<seq<Edge>>>, mappings: seq<seq<nat>>, hypernodes: seq<seq<nat>>)

  /** Every hypernode is at a node of the graph, or at none. */
  ghost predicate InGraph(mapping: seq<nat>, n: nat) {
    n <= INVALID_NODE && forall h {:trigger mapping[h]} | 0 <= h < |mapping| ::
      mapping[h] < n || mapping[h] == INVALID_NODE
  }

  ghost predicate IsLevel(rows: seq<seq<Edge>>, hypernodes: seq<nat>) {
    Closed(rows) && InGraph(hypernodes, |rows|)
  }

  /** One level is the contraction of the one before along the given clusters, numbered in
      the order of their first nodes. */
  ghost predicate Contraction(rows: seq<seq<Edge>>, cluster: seq<int>, mapping: seq<nat>, coarse: seq<seq<Edge>>) {
    && |rows| == |mapping| && SameClusters(cluster, mapping) && Firsts(mapping) == Iota(|coarse|)
    && IsContraction(rows, mapping, coarse) && RowsInOrderMet(rows, mapping, coarse) && |coarse| <= |rows|
  }

  ghost predicate Contractions(l: Levels, passes: Passes) {
    && |l.rows| == |l.hypernodes| == |l.mappings| + 1
    && (forall i {:trigger l.rows[i]} | 0 <= i < |l.rows| :: IsLevel(l.rows[i], l.hypernodes[i]))
    && forall i {:trigger l.mappings[i]} | 0 <= i < |l.mappings| ::
         && Contraction(l.rows[i], passes(i, l.rows[i]), l.mappings[i], l.rows[i + 1])
         && l.hypernodes[i + 1] == Moved(l.hypernodes[i], l.mappings[i])
  }

  /** What a node of the finest graph has become on level i: the composition of the mappings. */
  ghost function NodeAt(l: Levels, passes: Passes, i: nat, v: nat): (u: nat)
    requires Contractions(l, passes) && i < |l.rows| && v < |l.rows[0]|
    ensures u < |l.rows[i]|
  {
    if i == 0 then v
    else
      var u := NodeAt(l, passes, i - 1, v);
      assert 0 <= l.mappings[i - 1][u] < |l.rows[i]|;
      l.mappings[i - 1][u]
  }

  /** On every level a hypernode is at what its first node has become. */
  lemma {:induction false} HypernodeAt(l: Levels, passes: Passes, i: nat, h: nat)
    requires Contractions(l, passes) && i < |l.rows| && h < |l.hypernodes[0]|
    ensures |l.hypernodes[i]| == |l.hypernodes[0]|
    ensures l.hypernodes[i][h] == if l.hypernodes[0][h] == INVALID_NODE then INVALID_NODE
                                  else NodeAt(l, passes, i, l.hypernodes[0][h])
  {
    assert IsLevel(l.rows[0], l.hypernodes[0]);
    if i > 0 {
      HypernodeAt(l, passes, i - 1, h);
      assert l.hypernodes[i] == Moved(l.hypernodes[i - 1], l.mappings[i - 1]);
      assert IsLevel(l.rows[i - 1], l.hypernodes[i - 1]);
    }
  }

  /** The nodes of level i are in the clusters, on the coarsest level, of what they have become. */
  ghost predicate Projected(l: Levels, passes: Passes, i: nat, cluster: seq<int>)
    requires Contractions(l, passes) && i < |l.rows|
  {
    var top := passes(|l.mappings|, l.rows[|l.mappings|]);
    && |cluster| == |l.rows[i]| && |top| == |l.rows[|l.mappings|]|
    && (forall v: nat {:trigger NodeAt(l, passes, i, v)} | v < |l.rows[0]| ::
          cluster[NodeAt(l, passes, i, v)] == top[NodeAt(l, passes, |l.mappings|, v)])
    && (forall u {:trigger cluster[u]} | 0 <= u < |cluster| :: 0 <= cluster[u] < |l.rows[|l.mappings|]|)
    && Quality(l.rows[i], cluster, |l.rows[i]|) == Quality(l.rows[|l.mappings|], top, |top|)
  }

  /** A hypernode is in the cluster of the coarsest graph's node that it is at. */
  lemma HypernodesProjected(l: Levels, passes: Passes, cluster: seq<int>, h: nat)
    requires Contractions(l, passes) && Projected(l, passes, 0, cluster)
    requires h < |l.hypernodes[0]| && l.hypernodes[0][h] != INVALID_NODE
    ensures var n := |l.mappings|;
            && l.hypernodes[0][h] < |cluster| && h < |l.hypernodes[n]|
            && l.hypernodes[n][h] < |passes(n, l.rows[n])|
            && cluster[l.hypernodes[0][h]] == passes(n, l.rows[n])[l.hypernodes[n][h]]
  {
    assert IsLevel(l.rows[0], l.hypernodes[0]);
    HypernodeAt(l, passes, |l.mappings|, h);
    assert NodeAt(l, passes, 0, l.hypernodes[0][h]) == l.hypernodes[0][h];
  }

  lemma TopProjected(l: Levels, passes: Passes)
    requires Contractions(l, passes) && LeaveClusters(passes)
    ensures Projected(l, passes, |l.mappings|, passes(|l.mappings|, l.rows[|l.mappings|]))
  {
    assert Clusters(passes(|l.mappings|, l.rows[|l.mappings|]), |l.rows[|l.mappings|]|);
  }

  lemma {:induction false} Smaller(l: Levels, passes: Passes, i: nat, j: nat)
    requires Contractions(l, passes) && i <= j < |l.rows|
    ensures |l.rows[j]| <= |l.rows[i]|
    decreases j
  {
    if i < j {
      Smaller(l, passes, i, j - 1);
      assert |l.mappings[j - 1]| == |l.rows[j - 1]|;
    }
  }

  /** Taking the clusters one level down. */
  lemma ProjectedDown(l: Levels, passes: Passes, i: nat, coarser: seq<int>, cluster: seq<int>)
    requires Contractions(l, passes) && i < |l.mappings| && Projected(l, passes, i + 1, coarser)
    requires |cluster| == |l.mappings[i]| && forall v {:trigger cluster[v]} | 0 <= v < |cluster| ::
               l.mappings[i][v] < |coarser| && cluster[v] == coarser[l.mappings[i][v]]
    ensures Projected(l, passes, i, cluster)
  {
    Smaller(l, passes, i + 1, |l.mappings|);
    forall v: nat | v < |l.rows[0]|
      ensures cluster[NodeAt(l, passes, i, v)] == coarser[NodeAt(l, passes, i + 1, v)]
    {}
    assert cluster == Compose(l.mappings[i], coarser);
    assert IsLevel(l.rows[i], l.hypernodes[i]);
    ContractionKeepsQuality(l.rows[i], l.mappings[i], l.rows[i + 1], coarser);
  }

  /** Takes each node out of its cluster and puts it into the given one. */
  method Pass(graph: Graph, cluster: seq<int>)
    requires graph.Valid() && Clusters(cluster, graph.numNodes)
    modifies graph`clusterId, graph`clusterSize, graph`numCommunities
    ensures graph.Valid() && graph.clusterId == cluster
  {
    for v: nat := 0 to graph.numNodes
      invariant graph.Valid() && graph.clusterId[..v] == cluster[..v]
    {
      graph.SetClusterId(v, -1);
      graph.SetClusterId(v, cluster[v]);
      assert cluster[..v + 1] == cluster[..v] + [cluster[v]];
      assert graph.clusterId[..v + 1] == graph.clusterId[..v] + [cluster[v]];
    }
    assert graph.clusterId[..graph.numNodes] == graph.clusterId && cluster[..graph.numNodes] == cluster;
  }

  /** Puts the nodes of a graph into the clusters of what they have become on the next level. */
  method AssignClusterToNextLevelFinerGraph(fine: Graph, coarse: Graph, mapping: seq<nat>)
    requires fine != coarse && fine.Valid() && coarse.Valid() && |mapping| == fine.numNodes
    requires forall v {:trigger mapping[v]} | 0 <= v < |mapping| :: mapping[v] < coarse.numNodes
    requires coarse.numNodes <= fine.numNodes
    modifies fine`clusterId, fine`clusterSize, fine`numCommunities
    ensures fine.Valid()
    ensures forall v {:trigger fine.clusterId[v]} | 0 <= v < fine.numNodes ::
              fine.clusterId[v] == coarse.clusterId[mapping[v]]
  {
    for v: nat := 0 to fine.numNodes
      invariant fine.Valid()
      invariant forall u {:trigger fine.clusterId[u]} | 0 <= u < v :: fine.clusterId[u] == coarse.clusterId[mapping[u]]
    {
      fine.SetClusterId(v, coarse.clusterId[mapping[v]]);
    }
  }

  /** The graph is that of a level. */
  ghost predicate Holds(graph: Graph, l: Levels, i: nat)
    reads graph
  {
    i < |l.rows| && i < |l.hypernodes|
    && graph.Valid() && graph.Rows() == l.rows[i] && graph.hypernodeMapping == l.hypernodes[i]
  }

  ghost predicate Hierarchy(graphs: seq<Graph>, l: Levels)
    reads graphs
  {
    && |graphs| <= |l.rows| == |l.hypernodes|
    && (forall i {:trigger graphs[i]} | 0 <= i < |graphs| :: Holds(graphs[i], l, i))
    && forall i, j {:trigger graphs[i], graphs[j]} | 0 <= i < j < |graphs| :: graphs[i] != graphs[j]
  }

  function OneMore(l: Levels, mapping: seq<nat>, rows: seq<seq<Edge>>, hypernodes: seq<nat>): Levels {
    Levels(l.rows + [rows], l.mappings + [mapping], l.hypernodes + [hypernodes])
  }

  /** The next level is added. */
  lemma LevelAdded(l: Levels, passes: Passes, mapping: seq<nat>, rows: seq<seq<Edge>>)
    requires Contractions(l, passes)
    requires var n := |l.mappings|;
             && Contraction(l.rows[n], passes(n, l.rows[n]), mapping, rows)
             && IsLevel(rows, Moved(l.hypernodes[n], mapping))
    ensures Contractions(OneMore(l, mapping, rows, Moved(l.hypernodes[|l.mappings|], mapping)), passes)
  {}

  /** Contracts the clusters of the graph of the last level. */
  method Descend(graph: Graph, ghost l: Levels, ghost passes: Passes)
    returns (coarse: Graph, mapping: seq<nat>, ghost l': Levels)
    requires Contractions(l, passes) && Holds(graph, l, |l.mappings|) && LeaveClusters(passes)
    requires graph.clusterId == passes(|l.mappings|, graph.Rows())
    modifies graph`clusterId, graph`clusterSize, graph`numCommunities
    modifies graph`incidentClusterWeight, graph`incidentClusterWeightPosition
    ensures fresh(coarse) && Holds(coarse, l', |l'.mappings|) && Holds(graph, l', |l.mappings|)
    ensures Contractions(l', passes) && l' == OneMore(l, mapping, coarse.Rows(), coarse.hypernodeMapping)
  {
    coarse, mapping := graph.ContractClusters();
    LevelAdded(l, passes, mapping, coarse.Rows());
    l' := OneMore(l, mapping, coarse.Rows(), coarse.hypernodeMapping);
  }

  ghost function Elements(graphs: seq<Graph>): set<Graph> {
    set g | g in graphs
  }

  lemma LastElement(graphs: seq<Graph>)
    requires graphs != []
    ensures graphs[|graphs| - 1] in Elements(graphs)
  {}

  lemma ElementsPushed(graphs: seq<Graph>, graph: Graph)
    ensures Elements(graphs + [graph]) == Elements(graphs) + {graph}
  {}

  /** The graphs of the levels, from the finest one on, and the mappings between them. */
  ghost predicate Stacked(finest: Graph, graphs: seq<Graph>, mappings: seq<seq<nat>>, l: Levels)
    reads graphs
  {
    && 1 <= |graphs| == |mappings| + 1 <= |l.rows| == |l.mappings| + 1 && mappings == l.mappings[..|mappings|]
    && graphs[0] == finest && Hierarchy(graphs, l)
  }

  lemma Pushed(finest: Graph, graphs: seq<Graph>, mappings: seq<seq<nat>>, l: Levels, graph: Graph, mapping: seq<nat>)
    requires l.mappings == mappings && Stacked(finest, graphs, mappings, l) && graph !in graphs
    requires graph.Valid() && Holds(graph, OneMore(l, mapping, graph.Rows(), graph.hypernodeMapping), |mappings| + 1)
    ensures Stacked(finest, graphs + [graph], mappings + [mapping],
                    OneMore(l, mapping, graph.Rows(), graph.hypernodeMapping))
  {
    forall i {:trigger graphs[i]} | 0 <= i < |graphs|
      ensures Holds(graphs[i], OneMore(l, mapping, graph.Rows(), graph.hypernodeMapping), i)
    {
      assert Holds(graphs[i], l, i);
    }
  }

  /** Contracts the clusters of the last level and makes that the next one. */
  method PushLevel(graphs: seq<Graph>, ghost finest: Graph, mappings: seq<seq<nat>>, ghost l: Levels,
                   ghost passes: Passes)
    returns (graphs': seq<Graph>, mappings': seq<seq<nat>>, ghost l': Levels)
    requires Contractions(l, passes) && LeaveClusters(passes)
    requires mappings == l.mappings && Stacked(finest, graphs, mappings, l)
    requires graphs[|mappings|].clusterId == passes(|mappings|, l.rows[|mappings|])
    modifies graphs[|mappings|]
    ensures Contractions(l', passes) && mappings' == l'.mappings && Stacked(finest, graphs', mappings', l')
    ensures |mappings'| == |mappings| + 1 && fresh(Elements(graphs') - Elements(graphs))
    ensures fresh(graphs'[|mappings'|])
  {
    var graph := graphs[|mappings|];
    assert Holds(graph, l, |mappings|);
    var coarse, mapping;
    coarse, mapping, l' := Descend(graph, l, passes);
    forall i {:trigger graphs[i]} | 0 <= i < |graphs| ensures Holds(graphs[i], l, i) {
      assert graphs[i] != graph || i == |mappings|;
    }
    Pushed(finest, graphs, mappings, l, coarse, mapping);
    graphs', mappings' := graphs + [coarse], mappings + [mapping];
    ElementsPushed(graphs, coarse);
  }

  /** Contracts the clusters of the last level and runs the pass of the next one. */
  method NextLevel(graphs: seq<Graph>, ghost finest: Graph, mappings: seq<seq<nat>>, ghost l: Levels, passes: Passes)
    returns (graphs': seq<Graph>, mappings': seq<seq<nat>>, ghost l': Levels)
    requires Contractions(l, passes) && LeaveClusters(passes)
    requires mappings == l.mappings && Stacked(finest, graphs, mappings, l)
    requires graphs[|mappings|].clusterId == passes(|mappings|, l.rows[|mappings|])
    modifies graphs[|mappings|]
    ensures Contractions(l', passes) && mappings' == l'.mappings && Stacked(finest, graphs', mappings', l')
    ensures |mappings'| == |mappings| + 1 && fresh(Elements(graphs') - Elements(graphs))
    ensures graphs'[|mappings'|].clusterId == passes(|mappings'|, l'.rows[|mappings'|])
  {
    graphs', mappings', l' := PushLevel(graphs, finest, mappings, l, passes);
    PassOnLast(graphs', finest, mappings', l', passes);
  }

  /** Runs passes and contracts after each of the first n. */
  method Coarsen(finest: Graph, passes: Passes, n: nat)
    returns (graphs: seq<Graph>, mappings: seq<seq<nat>>, ghost l: Levels)
    requires finest.Valid() && LeaveClusters(passes)
    modifies finest
    ensures Contractions(l, passes) && |l.mappings| == n
    ensures mappings == l.mappings && Stacked(finest, graphs, mappings, l)
    ensures fresh(Elements(graphs) - {finest})
    ensures graphs[n].clusterId == passes(n, l.rows[n])
  {
    l := Levels([finest.Rows()], [], [finest.hypernodeMapping]);
    graphs, mappings := [finest], [];
    PassOnLast(graphs, finest, mappings, l, passes);
    while |mappings| < n
      invariant |mappings| <= n && Contractions(l, passes)
      invariant mappings == l.mappings && Stacked(finest, graphs, mappings, l)
      invariant fresh(Elements(graphs) - {finest})
      invariant graphs[|mappings|].clusterId == passes(|mappings|, l.rows[|mappings|])
    {
      LastElement(graphs);
      graphs, mappings, l := NextLevel(graphs, finest, mappings, l, passes);
    }
  }

  /** Runs the pass of the last level. */
  method PassOnLast(graphs: seq<Graph>, ghost finest: Graph, mappings: seq<seq<nat>>, ghost l: Levels, passes: Passes)
    requires mappings == l.mappings && Stacked(finest, graphs, mappings, l) && LeaveClusters(passes)
    modifies graphs[|mappings|]
    ensures Stacked(finest, graphs, mappings, l)
    ensures graphs[|mappings|].clusterId == passes(|mappings|, l.rows[|mappings|])
  {
    var graph := graphs[|mappings|];
    assert Holds(graph, l, |mappings|);
    assert Clusters(passes(|mappings|, graph.Rows()), graph.numNodes);
    Pass(graph, passes(|mappings|, graph.Rows()));
    forall i {:trigger graphs[i]} | 0 <= i < |graphs| ensures Holds(graphs[i], l, i) {
      assert graphs[i] != graph || i == |mappings|;
    }
  }

  method TakeToFiner(fine: Graph, coarse: Graph, ghost i: nat, mapping: seq<nat>, ghost l: Levels, ghost passes: Passes)
    requires Contractions(l, passes) && i < |l.mappings| && mapping == l.mappings[i] && fine != coarse
    requires Holds(fine, l, i) && Holds(coarse, l, i + 1) && Projected(l, passes, i + 1, coarse.clusterId)
    modifies fine`clusterId, fine`clusterSize, fine`numCommunities
    ensures Holds(fine, l, i) && Projected(l, passes, i, fine.clusterId)
  {
    AssignClusterToNextLevelFinerGraph(fine, coarse, mapping);
    ProjectedDown(l, passes, i, coarse.clusterId, fine.clusterId);
  }

  lemma Popped(finest: Graph, graphs: seq<Graph>, mappings: seq<seq<nat>>, l: Levels)
    requires Stacked(finest, graphs, mappings, l) && |mappings| > 0
    ensures Stacked(finest, graphs[..|mappings|], mappings[..|mappings| - 1], l)
    ensures Elements(graphs[..|mappings|]) <= Elements(graphs)
  {}

  /** Takes the clusters of the last level down to the one before, and drops the last. */
  method TakeDown(ghost finest: Graph, graphs: seq<Graph>, mappings: seq<seq<nat>>, ghost l: Levels,
                  ghost passes: Passes)
    returns (graphs': seq<Graph>, mappings': seq<seq<nat>>)
    requires Contractions(l, passes) && Stacked(finest, graphs, mappings, l) && |mappings| > 0
    requires Projected(l, passes, |mappings|, graphs[|mappings|].clusterId)
    modifies Elements(graphs)
    ensures Stacked(finest, graphs', mappings', l) && Elements(graphs') <= Elements(graphs)
    ensures |mappings'| < |mappings| && Projected(l, passes, |mappings'|, graphs'[|mappings'|].clusterId)
  {
    var i := |mappings| - 1;
    assert Holds(graphs[i], l, i) && Holds(graphs[i + 1], l, i + 1);
    assert l.mappings[i] == mappings[i];
    TakeToFiner(graphs[i], graphs[i + 1], i, mappings[i], l, passes);
    forall j {:trigger graphs[j]} | 0 <= j < |graphs| ensures Holds(graphs[j], l, j) {
      assert graphs[j] != graphs[i] || i == j;
    }
    Popped(finest, graphs, mappings, l);
    graphs', mappings' := graphs[..|mappings|], mappings[..i];
  }

  /** Takes the clusters of the last level back to the first. */
  method TakeBack(finest: Graph, levels: seq<Graph>, maps: seq<seq<nat>>, ghost l: Levels, ghost passes: Passes)
    requires Contractions(l, passes) && maps == l.mappings && Stacked(finest, levels, maps, l)
    requires Projected(l, passes, |maps|, levels[|maps|].clusterId)
    modifies Elements(levels)
    ensures Holds(finest, l, 0) && Projected(l, passes, 0, finest.clusterId)
  {
    var graphs, mappings := levels, maps;
    while |mappings| > 0
      invariant Elements(graphs) <= Elements(levels) && Stacked(finest, graphs, mappings, l)
      invariant Projected(l, passes, |mappings|, graphs[|mappings|].clusterId)
      decreases |mappings|
    {
      graphs, mappings := TakeDown(finest, graphs, mappings, l, passes);
    }
    assert Holds(graphs[0], l, 0);
  }

  /** Runs passes and contracts after each as long as the modularity is improved, which it is
      n times; then takes the clusters of the coarsest graph back. */
  method Run(finest: Graph, passes: Passes, n: nat) returns (ghost l: Levels)
    requires finest.Valid() && LeaveClusters(passes)
    modifies finest
    ensures Contractions(l, passes) && |l.mappings| == n
    ensures Holds(finest, l, 0) && Projected(l, passes, 0, finest.clusterId)
  {
    var graphs, mappings;
    graphs, mappings, l := Coarsen(finest, passes, n);
    TopProjected(l, passes);
    TakeBack(finest, graphs, mappings, l, passes);
  }
}
