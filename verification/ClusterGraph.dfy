/** Weighted graphs as adjacency lists, the weight between clusters of nodes, and what it
    means for one graph to be the contraction of another along a clustering. */
module ClusterGraph {
  import S = Sums

  /** An edge and its weight; or, when the target is a cluster, the weight towards that cluster. */
  datatype Edge = Edge(target: nat, weight: real)

  /** One value for every node or cluster, zero elsewhere. */
  function At(f: seq<real>, x: int): real {
    if 0 <= x < |f| then f[x] else 0.0
  }

  /** Every node gets the value of its cluster. */
  function Lift(cluster: seq<int>, f: seq<real>): (g: seq<real>)
    ensures |g| == |cluster|
  {
    seq(|cluster|, v requires 0 <= v < |cluster| => At(f, cluster[v]))
  }

  function Ones(n: nat): seq<real> {
    seq(n, _ => 1.0)
  }

  /** One for the nodes of cluster c, zero for the others. */
  function Indicator(cluster: seq<int>, c: int): seq<real> {
    seq(|cluster|, v requires 0 <= v < |cluster| => if cluster[v] == c then 1.0 else 0.0)
  }

  /** One for node v, zero for the others. */
  function Unit(v: nat): seq<real> {
    seq(v + 1, u => if u == v then 1.0 else 0.0)
  }

  /** Sum of the edge weights, each times the value of the target. */
  function Weigh(row: seq<Edge>, f: seq<real>): real {
    if row == [] then 0.0 else Weigh(row[..|row| - 1], f) + row[|row| - 1].weight * At(f, row[|row| - 1].target)
  }

  lemma WeighAppend(row: seq<Edge>, e: Edge, f: seq<real>)
    ensures Weigh(row + [e], f) == Weigh(row, f) + e.weight * At(f, e.target)
  {
    assert (row + [e])[..|row|] == row;
  }

  lemma {:induction false} WeighBump(row: seq<Edge>, i: nat, w: real, f: seq<real>)
    requires i < |row|
    ensures Weigh(row[i := row[i].(weight := row[i].weight + w)], f) == Weigh(row, f) + w * At(f, row[i].target)
  {
    var n := |row| - 1;
    var row' := row[i := row[i].(weight := row[i].weight + w)];
    if i == n {
      assert row'[..n] == row[..n];
      assert (row[n].weight + w) * At(f, row[n].target)
          == row[n].weight * At(f, row[n].target) + w * At(f, row[n].target);
    } else {
      assert row'[..n] == row[..n][i := row[..n][i].(weight := row[..n][i].weight + w)];
      WeighBump(row[..n], i, w, f);
    }
  }

  /** The targets of a row are nodes of the graph. */
  ghost predicate Targets(row: seq<Edge>, n: nat) {
    forall j {:trigger row[j]} | 0 <= j < |row| :: row[j].target < n
  }

  /** No two edges of a row lead to the same node. */
  ghost predicate Simple(row: seq<Edge>) {
    forall i, j {:trigger row[i].target, row[j].target} | 0 <= i < j < |row| :: row[i].target != row[j].target
  }

  /** Adjacency lists of a graph. */
  ghost predicate Closed(rows: seq<seq<Edge>>) {
    forall v {:trigger rows[v]} | 0 <= v < |rows| :: Targets(rows[v], |rows|)
  }

  ghost predicate NodesBelow(nodes: seq<nat>, n: nat) {
    forall i {:trigger nodes[i]} | 0 <= i < |nodes| :: nodes[i] < n
  }

  /** Sum over several nodes of what their edges weigh. */
  function WeighNodes(rows: seq<seq<Edge>>, nodes: seq<nat>, f: seq<real>): real
    requires NodesBelow(nodes, |rows|)
  {
    if nodes == [] then 0.0 else WeighNodes(rows, nodes[..|nodes| - 1], f) + Weigh(rows[nodes[|nodes| - 1]], f)
  }

  /** What the edges of cluster a weigh, taking the first m nodes. */
  function Form(rows: seq<seq<Edge>>, m: nat, cluster: seq<int>, a: int, f: seq<real>): real
    requires m <= |rows| == |cluster|
  {
    if m == 0 then 0.0
    else Form(rows, m - 1, cluster, a, f) + if cluster[m - 1] == a then Weigh(rows[m - 1], f) else 0.0
  }

  /** The nodes below m of a cluster, in increasing order. */
  function Members(cluster: seq<int>, m: nat, c: int): (s: seq<nat>)
    requires m <= |cluster|
    ensures NodesBelow(s, m)
  {
    if m == 0 then []
    else if cluster[m - 1] == c then Members(cluster, m - 1, c) + [m - 1]
    else Members(cluster, m - 1, c)
  }

  /** The members of a cluster are the nodes in it, each once and in order. */
  lemma {:induction false} MembersRight(cluster: seq<int>, m: nat, c: int)
    requires m <= |cluster|
    ensures var s := Members(cluster, m, c);
            && (forall i {:trigger s[i]} | 0 <= i < |s| :: cluster[s[i]] == c)
            && (forall i, j {:trigger s[i], s[j]} | 0 <= i < j < |s| :: s[i] < s[j])
            && (forall v {:trigger v in s} | 0 <= v < m && cluster[v] == c :: v in s)
  {
    if m > 0 {
      MembersRight(cluster, m - 1, c);
      forall v {:trigger v in Members(cluster, m, c)} | 0 <= v < m && cluster[v] == c
        ensures v in Members(cluster, m, c)
      {
        assert v < m - 1 ==> v in Members(cluster, m - 1, c);
      }
    }
  }

  // -------------------------------------------------------------- weight between clusters

  /** The weight of the edges of a row that lead to cluster b. */
  function Towards(row: seq<Edge>, cluster: seq<int>, b: int): real {
    if row == [] then 0.0
    else
      var e := row[|row| - 1];
      Towards(row[..|row| - 1], cluster, b) + if e.target < |cluster| && cluster[e.target] == b then e.weight else 0.0
  }

  /** The weight of the edges from nodes of cluster a, among the first m, to nodes of cluster b. */
  function Between(rows: seq<seq<Edge>>, m: nat, cluster: seq<int>, a: int, b: int): real
    requires m <= |rows| == |cluster|
  {
    if m == 0 then 0.0
    else Between(rows, m - 1, cluster, a, b) + if cluster[m - 1] == a then Towards(rows[m - 1], cluster, b) else 0.0
  }

  /** The weight of all edges of a row. */
  function RowWeight(row: seq<Edge>): real {
    if row == [] then 0.0 else RowWeight(row[..|row| - 1]) + row[|row| - 1].weight
  }

  /** The weighted degrees of the nodes of cluster a, among the first m, added up. */
  function Degrees(rows: seq<seq<Edge>>, m: nat, cluster: seq<int>, a: int): real
    requires m <= |rows| == |cluster|
  {
    if m == 0 then 0.0
    else Degrees(rows, m - 1, cluster, a) + if cluster[m - 1] == a then RowWeight(rows[m - 1]) else 0.0
  }

  /** The weight of all edges of the first m nodes. */
  function TotalWeight(rows: seq<seq<Edge>>, m: nat): real
    requires m <= |rows|
  {
    if m == 0 then 0.0 else TotalWeight(rows, m - 1) + RowWeight(rows[m - 1])
  }

  lemma {:induction false} TowardsIsWeigh(row: seq<Edge>, cluster: seq<int>, b: int)
    ensures Towards(row, cluster, b) == Weigh(row, Indicator(cluster, b))
  {
    if row != [] {
      TowardsIsWeigh(row[..|row| - 1], cluster, b);
    }
  }

  lemma {:induction false} RowWeightIsWeigh(row: seq<Edge>, n: nat)
    requires Targets(row, n)
    ensures RowWeight(row) == Weigh(row, Ones(n))
  {
    if row != [] {
      assert Targets(row[..|row| - 1], n);
      RowWeightIsWeigh(row[..|row| - 1], n);
    }
  }

  lemma {:induction false} BetweenIsForm(rows: seq<seq<Edge>>, m: nat, cluster: seq<int>, a: int, b: int)
    requires m <= |rows| == |cluster|
    ensures Between(rows, m, cluster, a, b) == Form(rows, m, cluster, a, Indicator(cluster, b))
  {
    if m > 0 {
      BetweenIsForm(rows, m - 1, cluster, a, b);
      TowardsIsWeigh(rows[m - 1], cluster, b);
    }
  }

  lemma {:induction false} DegreesIsForm(rows: seq<seq<Edge>>, m: nat, cluster: seq<int>, a: int)
    requires m <= |rows| == |cluster| && Closed(rows)
    ensures Degrees(rows, m, cluster, a) == Form(rows, m, cluster, a, Ones(|rows|))
  {
    if m > 0 {
      DegreesIsForm(rows, m - 1, cluster, a);
      RowWeightIsWeigh(rows[m - 1], |rows|);
    }
  }

  lemma {:induction false} TotalWeightIsForm(rows: seq<seq<Edge>>, m: nat)
    requires m <= |rows| && Closed(rows)
    ensures TotalWeight(rows, m) == Form(rows, m, S.Zeros(|rows|), 0, Ones(|rows|))
  {
    if m > 0 {
      TotalWeightIsForm(rows, m - 1);
      RowWeightIsWeigh(rows[m - 1], |rows|);
    }
  }

  // -------------------------------------------------------------- contraction

  /** Every cluster of the clustering has become one node, numbered below |coarse|, whose
      edges together weigh, for any values of the new nodes, what the edges of its members do. */
  ghost predicate IsContraction(rows: seq<seq<Edge>>, cluster: seq<int>, coarse: seq<seq<Edge>>) {
    && |rows| == |cluster| && Closed(coarse)
    && (forall v {:trigger cluster[v]} | 0 <= v < |cluster| :: 0 <= cluster[v] < |coarse|)
    && forall a {:trigger coarse[a]} | 0 <= a < |coarse| :: Gathers(rows, cluster, a, coarse[a])
  }

  /** A row gathers what the nodes of cluster a have. */
  ghost predicate Gathers(rows: seq<seq<Edge>>, cluster: seq<int>, a: int, row: seq<Edge>)
    requires |rows| == |cluster|
  {
    && Simple(row)
    && forall f: seq<real> {:trigger Weigh(row, f)} ::
         Weigh(row, f) == WeighNodes(rows, Members(cluster, |cluster|, a), Lift(cluster, f))
  }

  /** Sum over the clusters below k that are in coarser cluster a of what their members among
      the first m nodes weigh. */
  function ByCluster(rows: seq<seq<Edge>>, cluster: seq<int>, m: nat, coarser: seq<int>, k: nat, a: int,
                     f: seq<real>): real
    requires m <= |rows| == |cluster| && k <= |coarser|
  {
    if k == 0 then 0.0
    else ByCluster(rows, cluster, m, coarser, k - 1, a, f)
         + if coarser[k - 1] == a then WeighNodes(rows, Members(cluster, m, k - 1), f) else 0.0
  }

  lemma WeighNodesAppend(rows: seq<seq<Edge>>, nodes: seq<nat>, v: nat, f: seq<real>)
    requires NodesBelow(nodes, |rows|) && v < |rows|
    ensures NodesBelow(nodes + [v], |rows|)
    ensures WeighNodes(rows, nodes + [v], f) == WeighNodes(rows, nodes, f) + Weigh(rows[v], f)
  {
    assert (nodes + [v])[..|nodes|] == nodes;
  }

  /** One more node adds its weight to the cluster it is in. */
  lemma {:induction false} ByClusterStep(rows: seq<seq<Edge>>, cluster: seq<int>, m: nat, coarser: seq<int>, k: nat,
                                         a: int, f: seq<real>)
    requires m < |rows| == |cluster| && k <= |coarser|
    ensures ByCluster(rows, cluster, m + 1, coarser, k, a, f) == ByCluster(rows, cluster, m, coarser, k, a, f)
         + if 0 <= cluster[m] < k && coarser[cluster[m]] == a then Weigh(rows[m], f) else 0.0
  {
    if k > 0 {
      ByClusterStep(rows, cluster, m, coarser, k - 1, a, f);
      var members := Members(cluster, m, k - 1);
      if cluster[m] == k - 1 {
        assert Members(cluster, m + 1, k - 1) == members + [m];
        WeighNodesAppend(rows, members, m, f);
      } else {
        assert Members(cluster, m + 1, k - 1) == members;
      }
    }
  }

  lemma {:induction false} ByClusterNone(rows: seq<seq<Edge>>, cluster: seq<int>, coarser: seq<int>, k: nat, a: int,
                                         f: seq<real>)
    requires |rows| == |cluster| && k <= |coarser|
    ensures ByCluster(rows, cluster, 0, coarser, k, a, f) == 0.0
  {
    if k > 0 {
      ByClusterNone(rows, cluster, coarser, k - 1, a, f);
    }
  }

  /** A clustering of the contracted graph, on the nodes of the graph itself. */
  function Compose(cluster: seq<int>, coarser: seq<int>): (s: seq<int>)
    requires forall v {:trigger cluster[v]} | 0 <= v < |cluster| :: 0 <= cluster[v] < |coarser|
    ensures |s| == |cluster| && forall v {:trigger s[v]} | 0 <= v < |s| :: s[v] == coarser[cluster[v]]
  {
    seq(|cluster|, v requires 0 <= v < |cluster| => assert 0 <= cluster[v] < |coarser|; coarser[cluster[v]])
  }

  /** Adding up cluster by cluster or node by node is the same. */
  lemma {:induction false} ByClusterIsForm(rows: seq<seq<Edge>>, cluster: seq<int>, m: nat, coarser: seq<int>, a: int,
                                           f: seq<real>)
    requires m <= |rows| == |cluster|
    requires forall v {:trigger cluster[v]} | 0 <= v < |cluster| :: 0 <= cluster[v] < |coarser|
    ensures ByCluster(rows, cluster, m, coarser, |coarser|, a, f) == Form(rows, m, Compose(cluster, coarser), a, f)
  {
    if m == 0 {
      ByClusterNone(rows, cluster, coarser, |coarser|, a, f);
    } else {
      ByClusterIsForm(rows, cluster, m - 1, coarser, a, f);
      ByClusterStep(rows, cluster, m - 1, coarser, |coarser|, a, f);
      assert Compose(cluster, coarser)[m - 1] == coarser[cluster[m - 1]];
    }
  }

  lemma {:induction false} CoarseFormByCluster(rows: seq<seq<Edge>>, cluster: seq<int>, coarse: seq<seq<Edge>>,
                                               coarser: seq<int>, k: nat, a: int, f: seq<real>)
    requires IsContraction(rows, cluster, coarse) && k <= |coarse| == |coarser|
    ensures Form(coarse, k, coarser, a, f) == ByCluster(rows, cluster, |rows|, coarser, k, a, Lift(cluster, f))
  {
    if k > 0 {
      CoarseFormByCluster(rows, cluster, coarse, coarser, k - 1, a, f);
      assert Gathers(rows, cluster, k - 1, coarse[k - 1]);
    }
  }

  /** For any values of the new nodes, a cluster of the contracted graph weighs what it weighs
      in the graph itself when every node has the value of its cluster. */
  lemma ContractionKeepsForm(rows: seq<seq<Edge>>, cluster: seq<int>, coarse: seq<seq<Edge>>, coarser: seq<int>,
                             a: int, f: seq<real>)
    requires IsContraction(rows, cluster, coarse) && |coarser| == |coarse|
    ensures Form(coarse, |coarse|, coarser, a, f) == Form(rows, |rows|, Compose(cluster, coarser), a, Lift(cluster, f))
  {
    CoarseFormByCluster(rows, cluster, coarse, coarser, |coarse|, a, f);
    ByClusterIsForm(rows, cluster, |rows|, coarser, a, Lift(cluster, f));
  }

  /** A node of the contracted graph has the weights of the cluster it stands for. */
  lemma ContractedNode(rows: seq<seq<Edge>>, cluster: seq<int>, coarse: seq<seq<Edge>>, a: nat, b: nat)
    requires Closed(rows) && IsContraction(rows, cluster, coarse) && a < |coarse|
    ensures Simple(coarse[a])
    ensures Weigh(coarse[a], Unit(b)) == Between(rows, |rows|, cluster, a, b)
    ensures RowWeight(coarse[a]) == Degrees(rows, |rows|, cluster, a)
  {
    assert Gathers(rows, cluster, a, coarse[a]);
    assert Lift(cluster, Unit(b)) == Indicator(cluster, b);
    MembersForm(rows, |rows|, cluster, a, Indicator(cluster, b));
    BetweenIsForm(rows, |rows|, cluster, a, b);
    RowWeightIsWeigh(coarse[a], |coarse|);
    assert Lift(cluster, Ones(|coarse|)) == Ones(|cluster|);
    MembersForm(rows, |rows|, cluster, a, Ones(|rows|));
    DegreesIsForm(rows, |rows|, cluster, a);
  }

  lemma ContractionMeasured(rows: seq<seq<Edge>>, cluster: seq<int>, coarse: seq<seq<Edge>>)
    requires Closed(rows) && IsContraction(rows, cluster, coarse)
    ensures TotalWeight(coarse, |coarse|) == TotalWeight(rows, |rows|)
    ensures forall a {:trigger coarse[a]} | 0 <= a < |coarse| ::
              Simple(coarse[a]) && RowWeight(coarse[a]) == Degrees(rows, |rows|, cluster, a)
              && Weigh(coarse[a], Unit(a)) == Between(rows, |rows|, cluster, a, a)
  {
    ContractionKeepsWeights(rows, cluster, coarse, S.Zeros(|coarse|), 0, 0);
    forall a {:trigger coarse[a]} | 0 <= a < |coarse|
      ensures Simple(coarse[a]) && RowWeight(coarse[a]) == Degrees(rows, |rows|, cluster, a)
      ensures Weigh(coarse[a], Unit(a)) == Between(rows, |rows|, cluster, a, a)
    {
      ContractedNode(rows, cluster, coarse, a, a);
    }
  }

  lemma {:induction false} MembersForm(rows: seq<seq<Edge>>, m: nat, cluster: seq<int>, a: int, f: seq<real>)
    requires m <= |rows| == |cluster|
    ensures WeighNodes(rows, Members(cluster, m, a), f) == Form(rows, m, cluster, a, f)
  {
    if m > 0 {
      var last: nat := m - 1;
      var before := Members(cluster, last, a);
      MembersForm(rows, last, cluster, a, f);
      if cluster[last] == a {
        assert Members(cluster, m, a) == before + [last];
        WeighNodesAppend(rows, before, last, f);
      } else {
        assert Members(cluster, m, a) == before;
      }
    }
  }

  lemma Lifted(cluster: seq<int>, coarser: seq<int>, b: int)
    requires forall v {:trigger cluster[v]} | 0 <= v < |cluster| :: 0 <= cluster[v] < |coarser|
    ensures Lift(cluster, Indicator(coarser, b)) == Indicator(Compose(cluster, coarser), b)
    ensures Lift(cluster, Ones(|coarser|)) == Ones(|cluster|)
    ensures Compose(cluster, S.Zeros(|coarser|)) == S.Zeros(|cluster|)
  {
    forall v | 0 <= v < |cluster|
      ensures Lift(cluster, Indicator(coarser, b))[v] == Indicator(Compose(cluster, coarser), b)[v]
      ensures Lift(cluster, Ones(|coarser|))[v] == 1.0
      ensures Compose(cluster, S.Zeros(|coarser|))[v] == 0
    {
      assert 0 <= cluster[v] < |coarser|;
    }
  }

  /** Whatever clusters the new nodes are put in, the weight between two clusters, the
      weighted degrees of a cluster and the total weight are those of the graph itself. */
  lemma ContractionKeepsWeights(rows: seq<seq<Edge>>, cluster: seq<int>, coarse: seq<seq<Edge>>, coarser: seq<int>,
                                a: int, b: int)
    requires Closed(rows) && IsContraction(rows, cluster, coarse) && |coarser| == |coarse|
    ensures Between(coarse, |coarse|, coarser, a, b) == Between(rows, |rows|, Compose(cluster, coarser), a, b)
    ensures Degrees(coarse, |coarse|, coarser, a) == Degrees(rows, |rows|, Compose(cluster, coarser), a)
    ensures TotalWeight(coarse, |coarse|) == TotalWeight(rows, |rows|)
  {
    Lifted(cluster, coarser, b);
    BetweenIsForm(coarse, |coarse|, coarser, a, b);
    BetweenIsForm(rows, |rows|, Compose(cluster, coarser), a, b);
    ContractionKeepsForm(rows, cluster, coarse, coarser, a, Indicator(coarser, b));
    DegreesIsForm(coarse, |coarse|, coarser, a);
    DegreesIsForm(rows, |rows|, Compose(cluster, coarser), a);
    ContractionKeepsForm(rows, cluster, coarse, coarser, a, Ones(|coarser|));
    TotalWeightIsForm(coarse, |coarse|);
    TotalWeightIsForm(rows, |rows|);
    ContractionKeepsForm(rows, cluster, coarse, S.Zeros(|coarser|), 0, Ones(|coarser|));
  }

  /** Clusters whose weighted degrees add up to no more than this do not count. */
  const EPSILON: real := 0.00001

  /** What a cluster adds to the modularity: its internal weight, less what would be expected. */
  function Contribution(internal: real, degrees: real, total: real): real {
    if degrees > EPSILON then internal - degrees * degrees / (if total < 1.0 then 1.0 else total) else 0.0
  }

  /** What the clusters below k contribute to the modularity of a clustering. */
  function Quality(rows: seq<seq<Edge>>, cluster: seq<int>, k: nat): real
    requires |rows| == |cluster|
  {
    if k == 0 then 0.0
    else Quality(rows, cluster, k - 1)
         + Contribution(Between(rows, |rows|, cluster, k - 1, k - 1), Degrees(rows, |rows|, cluster, k - 1),
                        TotalWeight(rows, |rows|))
  }

  /** Clusters beyond those used contribute nothing. */
  lemma {:induction false} UnusedClusters(rows: seq<seq<Edge>>, cluster: seq<int>, k: nat, n: nat)
    requires |rows| == |cluster| && k <= n
    requires forall v {:trigger cluster[v]} | 0 <= v < |cluster| :: cluster[v] < k
    ensures Quality(rows, cluster, n) == Quality(rows, cluster, k)
  {
    if k < n {
      UnusedClusters(rows, cluster, k, n - 1);
      NoDegrees(rows, |rows|, cluster, n - 1);
    }
  }

  lemma {:induction false} NoDegrees(rows: seq<seq<Edge>>, m: nat, cluster: seq<int>, a: int)
    requires m <= |rows| == |cluster|
    requires forall v {:trigger cluster[v]} | 0 <= v < |cluster| :: cluster[v] != a
    ensures Degrees(rows, m, cluster, a) == 0.0
  {
    if m > 0 {
      NoDegrees(rows, m - 1, cluster, a);
    }
  }

  /** The modularity of every clustering of the contracted graph is that of the same
      clustering of the graph itself: what the Louvain method rests on. */
  lemma ContractionKeepsQuality(rows: seq<seq<Edge>>, cluster: seq<int>, coarse: seq<seq<Edge>>, coarser: seq<int>)
    requires Closed(rows) && IsContraction(rows, cluster, coarse) && |coarser| == |coarse| <= |rows|
    requires forall a {:trigger coarser[a]} | 0 <= a < |coarser| :: coarser[a] < |coarse|
    ensures Quality(coarse, coarser, |coarse|) == Quality(rows, Compose(cluster, coarser), |rows|)
    ensures TotalWeight(coarse, |coarse|) == TotalWeight(rows, |rows|)
  {
    ContractionKeepsWeights(rows, cluster, coarse, coarser, 0, 0);
    SameQuality(rows, cluster, coarse, coarser, |coarse|);
    UnusedClusters(rows, Compose(cluster, coarser), |coarse|, |rows|);
  }

  lemma {:induction false} SameQuality(rows: seq<seq<Edge>>, cluster: seq<int>, coarse: seq<seq<Edge>>,
                                       coarser: seq<int>, k: nat)
    requires Closed(rows) && IsContraction(rows, cluster, coarse) && |coarser| == |coarse|
    ensures Quality(coarse, coarser, k) == Quality(rows, Compose(cluster, coarser), k)
  {
    if k > 0 {
      SameQuality(rows, cluster, coarse, coarser, k - 1);
      ContractionKeepsWeights(rows, cluster, coarse, coarser, k - 1, k - 1);
    }
  }

  // -------------------------------------------------------------- the table of incident clusters

  lemma {:induction false} WeighNothing(row: seq<Edge>, f: seq<real>)
    requires forall j {:trigger row[j]} | 0 <= j < |row| :: At(f, row[j].target) == 0.0
    ensures Weigh(row, f) == 0.0
  {
    if row != [] {
      WeighNothing(row[..|row| - 1], f);
    }
  }

  /** A table with one entry for every cluster met, and the positions of the entries. */
  ghost predicate Table(table: seq<Edge>, position: map<int, nat>, k: nat) {
    && Targets(table, k)
    && (forall c {:trigger position[c]} {:trigger c in position} | c in position ::
          position[c] < |table| && table[position[c]].target == c)
    && (forall i {:trigger table[i]} | 0 <= i < |table| ::
          table[i].target in position && position[table[i].target] == i)
  }

  lemma TableSimple(table: seq<Edge>, position: map<int, nat>, k: nat)
    requires Table(table, position, k)
    ensures Simple(table)
  {
    forall i, j | 0 <= i < j < |table| ensures table[i].target != table[j].target {
      assert position[table[i].target] == i && position[table[j].target] == j;
    }
  }

  /** There is room for one more cluster. */
  lemma TableFits(table: seq<Edge>, position: map<int, nat>, k: nat, c: nat)
    requires Table(table, position, k) && c < k && c !in position
    ensures |table| < k
  {
    TableSimple(table, position, k);
    TargetsCounted(table);
    var met := set i | 0 <= i < |table| :: table[i].target;
    S.BoundedSetSize(met + {c}, k);
  }

  lemma {:induction false} TargetsCounted(table: seq<Edge>)
    requires Simple(table)
    ensures |set i | 0 <= i < |table| :: table[i].target| == |table|
  {
    if table != [] {
      var n := |table| - 1;
      TargetsCounted(table[..n]);
      var before := set i | 0 <= i < n :: table[..n][i].target;
      assert (set i | 0 <= i < |table| :: table[i].target) == before + {table[n].target};
    }
  }

  /** Adds a weight to the entry of a cluster, or an entry for it. */
  function Entered(table: seq<Edge>, position: map<int, nat>, c: nat, w: real): seq<Edge>
    requires c in position ==> position[c] < |table|
  {
    if c in position then table[position[c] := table[position[c]].(weight := table[position[c]].weight + w)]
    else table + [Edge(c, w)]
  }

  lemma EnteredRight(table: seq<Edge>, position: map<int, nat>, k: nat, c: nat, w: real)
    requires Table(table, position, k) && c < k
    ensures Table(Entered(table, position, c, w), if c in position then position else position[c := |table|], k)
  {}

  /** For any values of the clusters, the table weighs what the edges of some nodes and some further edges do. */
  ghost predicate Holds(table: seq<Edge>, rows: seq<seq<Edge>>, cluster: seq<int>, nodes: seq<nat>, part: seq<Edge>)
    requires NodesBelow(nodes, |rows|)
  {
    forall f: seq<real> {:trigger Weigh(table, f)} ::
      Weigh(table, f) == WeighNodes(rows, nodes, Lift(cluster, f)) + Weigh(part, Lift(cluster, f))
  }

  lemma HoldsNothing(rows: seq<seq<Edge>>, cluster: seq<int>)
    ensures Holds([], rows, cluster, [], [])
  {}

  lemma HoldsEdgeAt(table: seq<Edge>, position: map<int, nat>, k: nat, rows: seq<seq<Edge>>, cluster: seq<int>,
                    nodes: seq<nat>, part: seq<Edge>, e: Edge, f: seq<real>)
    requires NodesBelow(nodes, |rows|) && Table(table, position, k)
    requires e.target < |cluster| && 0 <= cluster[e.target] < k
    requires Weigh(table, f) == WeighNodes(rows, nodes, Lift(cluster, f)) + Weigh(part, Lift(cluster, f))
    ensures Weigh(Entered(table, position, cluster[e.target], e.weight), f)
         == WeighNodes(rows, nodes, Lift(cluster, f)) + Weigh(part + [e], Lift(cluster, f))
  {
    WeighAppend(part, e, Lift(cluster, f));
    assert At(Lift(cluster, f), e.target) == At(f, cluster[e.target]);
    EnteredWeighs(table, position, k, cluster[e.target], e.weight, f);
  }

  /** The next edge, entered under the cluster of its target. */
  lemma HoldsEdge(table: seq<Edge>, position: map<int, nat>, k: nat, rows: seq<seq<Edge>>, cluster: seq<int>,
                  nodes: seq<nat>, part: seq<Edge>, e: Edge)
    requires NodesBelow(nodes, |rows|) && Holds(table, rows, cluster, nodes, part) && Table(table, position, k)
    requires e.target < |cluster| && 0 <= cluster[e.target] < k
    ensures Holds(Entered(table, position, cluster[e.target], e.weight), rows, cluster, nodes, part + [e])
  {
    var c: nat := cluster[e.target];
    var table' := Entered(table, position, c, e.weight);
    forall f: seq<real> {:trigger Weigh(table', f)}
      ensures Weigh(table', f) == WeighNodes(rows, nodes, Lift(cluster, f)) + Weigh(part + [e], Lift(cluster, f))
    {
      HoldsEdgeAt(table, position, k, rows, cluster, nodes, part, e, f);
    }
  }

  lemma EnteredWeighs(table: seq<Edge>, position: map<int, nat>, k: nat, c: nat, w: real, f: seq<real>)
    requires Table(table, position, k)
    ensures Weigh(Entered(table, position, c, w), f) == Weigh(table, f) + w * At(f, c)
  {
    if c in position {
      WeighBump(table, position[c], w, f);
    } else {
      WeighAppend(table, Edge(c, w), f);
    }
  }

  /** All edges of the next node. */
  lemma HoldsNode(table: seq<Edge>, rows: seq<seq<Edge>>, cluster: seq<int>, nodes: seq<nat>, v: nat)
    requires NodesBelow(nodes, |rows|) && v < |rows| && Holds(table, rows, cluster, nodes, rows[v])
    ensures NodesBelow(nodes + [v], |rows|) && Holds(table, rows, cluster, nodes + [v], [])
  {
    forall f: seq<real> {:trigger Weigh(table, f)}
      ensures Weigh(table, f) == WeighNodes(rows, nodes + [v], Lift(cluster, f)) + Weigh([], Lift(cluster, f))
    {
      WeighNodesAppend(rows, nodes, v, Lift(cluster, f));
    }
  }

  /** A table that holds the edges of all members of a cluster is the row of that cluster. */
  lemma HoldsGathers(rows: seq<seq<Edge>>, cluster: seq<int>, a: int, row: seq<Edge>)
    requires |rows| == |cluster| && Simple(row) && Holds(row, rows, cluster, Members(cluster, |cluster|, a), [])
    ensures Gathers(rows, cluster, a, row)
  {}

  // -------------------------------------------------------------- which clusters have an entry, and where

  /** The first occurrence of every element, in order. */
  function Firsts(s: seq<int>): seq<int> {
    if s == [] then []
    else
      var rest := Firsts(s[..|s| - 1]);
      if s[|s| - 1] in rest then rest else rest + [s[|s| - 1]]
  }

  lemma {:induction false} FirstsElements(s: seq<int>, x: int)
    ensures x in Firsts(s) <==> x in s
  {
    if s != [] {
      FirstsElements(s[..|s| - 1], x);
      assert s == s[..|s| - 1] + [s[|s| - 1]];
    }
  }

  function TargetsOf(row: seq<Edge>): (s: seq<int>)
    ensures |s| == |row| && forall j {:trigger s[j]} | 0 <= j < |s| :: s[j] == row[j].target
  {
    seq(|row|, j requires 0 <= j < |row| => row[j].target)
  }

  /** The clusters that the edges of some nodes lead to, edge by edge. */
  function Met(rows: seq<seq<Edge>>, cluster: seq<int>, nodes: seq<nat>): seq<int>
    requires NodesBelow(nodes, |rows|)
  {
    if nodes == [] then []
    else Met(rows, cluster, nodes[..|nodes| - 1]) + MetBy(rows[nodes[|nodes| - 1]], cluster)
  }

  /** The clusters that the edges of one node lead to. */
  function MetBy(row: seq<Edge>, cluster: seq<int>): (s: seq<int>)
    ensures |s| == |row|
  {
    seq(|row|, j requires 0 <= j < |row| => if row[j].target < |cluster| then cluster[row[j].target] else -1)
  }

  /** One entry for every cluster met, in the order they are met. */
  ghost predicate InOrderMet(table: seq<Edge>, rows: seq<seq<Edge>>, cluster: seq<int>, nodes: seq<nat>,
                             part: seq<Edge>)
    requires NodesBelow(nodes, |rows|)
  {
    TargetsOf(table) == Firsts(Met(rows, cluster, nodes) + MetBy(part, cluster))
  }

  lemma MetNothing(rows: seq<seq<Edge>>, cluster: seq<int>)
    ensures InOrderMet([], rows, cluster, [], [])
  {}

  /** The next edge, entered under the cluster of its target. */
  lemma MetEdge(table: seq<Edge>, position: map<int, nat>, k: nat, rows: seq<seq<Edge>>, cluster: seq<int>,
                nodes: seq<nat>, part: seq<Edge>, e: Edge)
    requires NodesBelow(nodes, |rows|) && InOrderMet(table, rows, cluster, nodes, part) && Table(table, position, k)
    requires e.target < |cluster| && 0 <= cluster[e.target] < k
    ensures InOrderMet(Entered(table, position, cluster[e.target], e.weight), rows, cluster, nodes, part + [e])
  {
    var c := cluster[e.target];
    var met := Met(rows, cluster, nodes) + MetBy(part, cluster);
    assert Met(rows, cluster, nodes) + MetBy(part + [e], cluster) == met + [c];
    assert (met + [c])[..|met|] == met;
    if c in position {
      assert TargetsOf(table)[position[c]] == c;
    }
    assert TargetsOf(Entered(table, position, c, e.weight)) == TargetsOf(table) + if c in position then [] else [c];
  }

  /** All edges of the next node. */
  lemma MetNode(table: seq<Edge>, rows: seq<seq<Edge>>, cluster: seq<int>, nodes: seq<nat>, v: nat)
    requires NodesBelow(nodes, |rows|) && v < |rows| && InOrderMet(table, rows, cluster, nodes, rows[v])
    ensures NodesBelow(nodes + [v], |rows|) && InOrderMet(table, rows, cluster, nodes + [v], [])
  {
    assert (nodes + [v])[..|nodes|] == nodes;
    assert Met(rows, cluster, nodes + [v]) + MetBy([], cluster) == Met(rows, cluster, nodes) + MetBy(rows[v], cluster);
  }

  /** Some edge of the nodes leads to cluster c. */
  ghost predicate LeadTo(rows: seq<seq<Edge>>, cluster: seq<int>, nodes: seq<nat>, c: int)
    requires NodesBelow(nodes, |rows|)
  {
    exists i, j {:trigger rows[nodes[i]][j]} | 0 <= i < |nodes| && 0 <= j < |rows[nodes[i]]| ::
      rows[nodes[i]][j].target < |cluster| && cluster[rows[nodes[i]][j].target] == c
  }

  lemma {:induction false} MetIff(rows: seq<seq<Edge>>, cluster: seq<int>, nodes: seq<nat>, c: nat)
    requires NodesBelow(nodes, |rows|)
    ensures c in Met(rows, cluster, nodes) <==> LeadTo(rows, cluster, nodes, c)
  {
    if nodes != [] {
      var n := |nodes| - 1;
      var row := rows[nodes[n]];
      MetIff(rows, cluster, nodes[..n], c);
      if LeadTo(rows, cluster, nodes, c) {
        var i, j :| 0 <= i < |nodes| && 0 <= j < |rows[nodes[i]]|
                    && rows[nodes[i]][j].target < |cluster| && cluster[rows[nodes[i]][j].target] == c;
        if i == n {
          assert MetBy(row, cluster)[j] == c;
        } else {
          assert rows[nodes[..n][i]][j] == rows[nodes[i]][j];
        }
      }
      if LeadTo(rows, cluster, nodes[..n], c) {
        var i, j :| 0 <= i < n && 0 <= j < |rows[nodes[..n][i]]|
                    && rows[nodes[..n][i]][j].target < |cluster| && cluster[rows[nodes[..n][i]][j].target] == c;
        assert rows[nodes[i]][j] == rows[nodes[..n][i]][j];
      }
      if c in MetBy(row, cluster) {
        var j :| 0 <= j < |row| && MetBy(row, cluster)[j] == c;
        assert rows[nodes[n]][j] == row[j];
      }
    }
  }

  /** A cluster has an entry in the table exactly if some edge of the nodes leads to it. */
  lemma EntryIff(table: seq<Edge>, rows: seq<seq<Edge>>, cluster: seq<int>, nodes: seq<nat>, c: nat)
    requires NodesBelow(nodes, |rows|) && InOrderMet(table, rows, cluster, nodes, [])
    ensures c in TargetsOf(table) <==> LeadTo(rows, cluster, nodes, c)
  {
    var met := Met(rows, cluster, nodes);
    assert met + MetBy([], cluster) == met;
    FirstsElements(met, c);
    MetIff(rows, cluster, nodes, c);
  }

  // -------------------------------------------------------------- nodes in the order of their clusters

  /** The nodes below m ordered by cluster, up to cluster k, and by number within a cluster. */
  function Ordered(cluster: seq<int>, m: nat, k: nat): seq<nat>
    requires m <= |cluster|
  {
    if k == 0 then [] else Ordered(cluster, m, k - 1) + Members(cluster, m, k - 1)
  }

  lemma {:induction false} OrderedStep(cluster: seq<int>, m: nat, k: nat)
    requires m < |cluster|
    ensures |Ordered(cluster, m + 1, k)| == |Ordered(cluster, m, k)| + if 0 <= cluster[m] < k then 1 else 0
  {
    if k > 0 {
      OrderedStep(cluster, m, k - 1);
    }
  }

  /** Every node has its place. */
  lemma {:induction false} OrderedSize(cluster: seq<int>, m: nat, k: nat)
    requires m <= |cluster|
    requires forall v {:trigger cluster[v]} | 0 <= v < |cluster| :: 0 <= cluster[v] < k
    ensures |Ordered(cluster, m, k)| == m
  {
    if m == 0 {
      OrderedNone(cluster, k);
    } else {
      OrderedSize(cluster, m - 1, k);
      OrderedStep(cluster, m - 1, k);
      assert 0 <= cluster[m - 1] < k;
    }
  }

  lemma {:induction false} OrderedNone(cluster: seq<int>, k: nat)
    ensures Ordered(cluster, 0, k) == []
  {
    if k > 0 {
      OrderedNone(cluster, k - 1);
    }
  }

  lemma {:induction false} OrderedPrefix(cluster: seq<int>, m: nat, c: nat, k: nat)
    requires m <= |cluster| && c <= k
    ensures Ordered(cluster, m, c) <= Ordered(cluster, m, k)
  {
    if c < k {
      OrderedPrefix(cluster, m, c, k - 1);
      PrefixAppend(Ordered(cluster, m, c), Ordered(cluster, m, k - 1), Members(cluster, m, k - 1));
    }
  }

  lemma PrefixAppend<T>(s: seq<T>, t: seq<T>, u: seq<T>)
    requires s <= t
    ensures s <= t + u
  {}

  lemma Slice<T>(s: seq<T>, t: seq<T>, u: seq<T>)
    requires s + t <= u
    ensures u[|s|..|s| + |t|] == t
  {
    assert u[|s|..|s| + |t|] == u[..|s| + |t|][|s|..];
  }

  /** The members of each cluster are next to each other. */
  lemma OrderedBlock(cluster: seq<int>, m: nat, c: nat, k: nat)
    requires m <= |cluster| && c < k
    ensures |Ordered(cluster, m, c)| <= |Ordered(cluster, m, c + 1)| <= |Ordered(cluster, m, k)|
    ensures Ordered(cluster, m, k)[|Ordered(cluster, m, c)|..|Ordered(cluster, m, c + 1)|] == Members(cluster, m, c)
  {
    OrderedPrefix(cluster, m, c + 1, k);
    Slice(Ordered(cluster, m, c), Members(cluster, m, c), Ordered(cluster, m, k));
  }

  /** The order is the one by cluster and then by number, and all nodes are there once. */
  lemma {:induction false} OrderedSorted(cluster: seq<int>, m: nat, k: nat)
    requires m <= |cluster|
    ensures var s := Ordered(cluster, m, k);
            && NodesBelow(s, m)
            && (forall i {:trigger s[i]} | 0 <= i < |s| :: 0 <= cluster[s[i]] < k)
            && (forall i, j {:trigger s[i], s[j]} | 0 <= i < j < |s| ::
                  cluster[s[i]] < cluster[s[j]] || (cluster[s[i]] == cluster[s[j]] && s[i] < s[j]))
            && forall v {:trigger v in s} | 0 <= v < m && 0 <= cluster[v] < k :: v in s
  {
    if k > 0 {
      OrderedSorted(cluster, m, k - 1);
      MembersRight(cluster, m, k - 1);
      forall v | 0 <= v < m && 0 <= cluster[v] < k ensures v in Ordered(cluster, m, k) {
        if cluster[v] == k - 1 {
          assert v in Members(cluster, m, k - 1);
        } else {
          assert v in Ordered(cluster, m, k - 1);
        }
      }
    }
  }

  // -------------------------------------------------------------- adjacency arrays

  /** Adjacency array form: the edges of node v are those from offset adj[v] up to adj[v + 1]. */
  ghost predicate Adjacency(adj: seq<nat>, edges: seq<Edge>) {
    && |adj| > 0 && adj[0] == 0 && adj[|adj| - 1] == |edges|
    && forall i, j {:trigger adj[i], adj[j]} | 0 <= i <= j < |adj| :: adj[i] <= adj[j]
  }

  function RowsOf(adj: seq<nat>, edges: seq<Edge>): (rows: seq<seq<Edge>>)
    requires Adjacency(adj, edges)
    ensures |rows| == |adj| - 1
    ensures forall v {:trigger rows[v]} | 0 <= v < |rows| :: rows[v] == edges[adj[v]..adj[v + 1]]
  {
    seq(|adj| - 1, v requires 0 <= v < |adj| - 1 => edges[adj[v]..adj[v + 1]])
  }

  /** The rows one after the other. */
  function Flat(rows: seq<seq<Edge>>): seq<Edge> {
    if rows == [] then [] else Flat(rows[..|rows| - 1]) + rows[|rows| - 1]
  }

  lemma FlatAppend(rows: seq<seq<Edge>>, row: seq<Edge>)
    ensures Flat(rows + [row]) == Flat(rows) + row
  {
    assert (rows + [row])[..|rows|] == rows;
  }

  lemma {:induction false} FlatTargets(rows: seq<seq<Edge>>, n: nat)
    requires forall v {:trigger rows[v]} | 0 <= v < |rows| :: Targets(rows[v], n)
    ensures Targets(Flat(rows), n)
  {
    if rows != [] {
      FlatTargets(rows[..|rows| - 1], n);
    }
  }

  /** The first m offsets are where the rows begin. */
  ghost predicate Offsets(adj: seq<nat>, rows: seq<seq<Edge>>, m: nat)
    requires m <= |adj| && m <= |rows| + 1
  {
    forall a {:trigger adj[a]} | 0 <= a < m :: adj[a] == |Flat(rows[..a])|
  }

  lemma OffsetsAppend(adj: seq<nat>, rows: seq<seq<Edge>>, row: seq<Edge>)
    requires |rows| < |adj| && Offsets(adj, rows, |rows|)
    ensures Offsets(adj[|rows| := |Flat(rows)|], rows + [row], |rows| + 1)
    ensures Offsets(adj[|rows| := |Flat(rows)|], rows, |rows| + 1)
  {
    var adj' := adj[|rows| := |Flat(rows)|];
    assert rows[..|rows|] == rows;
    forall a | 0 <= a <= |rows| ensures adj'[a] == |Flat((rows + [row])[..a])| == |Flat(rows[..a])| {
      assert (rows + [row])[..a] == rows[..a];
    }
  }

  lemma {:induction false} FlatPrefix(rows: seq<seq<Edge>>, i: nat)
    requires i <= |rows|
    ensures |Flat(rows[..i])| <= |Flat(rows)| && Flat(rows)[..|Flat(rows[..i])|] == Flat(rows[..i])
  {
    if i == |rows| {
      assert rows[..i] == rows;
    } else {
      FlatPrefix(rows[..|rows| - 1], i);
      assert rows[..|rows| - 1][..i] == rows[..i];
    }
  }

  /** Offsets counted up row by row are the adjacency array of the rows. */
  lemma FlatAdjacency(adj: seq<nat>, rows: seq<seq<Edge>>)
    requires |adj| == |rows| + 1
    requires Offsets(adj, rows, |adj|)
    ensures Adjacency(adj, Flat(rows)) && RowsOf(adj, Flat(rows)) == rows
  {
    assert rows[..|rows|] == rows;
    forall i, j | 0 <= i <= j < |adj| ensures adj[i] <= adj[j] {
      FlatPrefix(rows[..j], i);
      assert rows[..j][..i] == rows[..i];
    }
    forall a {:trigger rows[a]} | 0 <= a < |rows|
      ensures adj[a] <= adj[a + 1] <= |Flat(rows)| && Flat(rows)[adj[a]..adj[a + 1]] == rows[a]
    {
      FlatPrefix(rows, a + 1);
      assert rows[..a + 1] == rows[..a] + [rows[a]];
      FlatAppend(rows[..a], rows[a]);
    }
  }
}
