/** The clusterable graph of the community detection: cluster ids updated in place, and the
    contraction of all clusters into a new graph. */
module GraphContraction {
  import opened ClusterGraph

  /** The number that is no node: the largest of its type. */
  const INVALID_NODE: nat := 0xFFFF_FFFF

  // -------------------------------------------------------------- sizes of clusters

  /** How many of the ids are c. */
  ghost function Count(ids: seq<int>, c: int): nat {
    if ids == [] then 0 else Count(ids[..|ids| - 1], c) + if ids[|ids| - 1] == c then 1 else 0
  }

  /** The clusters with members. */
  ghost function Communities(ids: seq<int>): set<int> {
    set c | c in ids && c != -1
  }

  lemma CountAppend(ids: seq<int>, x: int, c: int)
    ensures Count(ids + [x], c) == Count(ids, c) + if x == c then 1 else 0
  {
    assert (ids + [x])[..|ids|] == ids;
  }

  lemma {:induction false} CountUpdate(ids: seq<int>, i: nat, x: int, c: int)
    requires i < |ids|
    ensures Count(ids[i := x], c) == Count(ids, c) - (if ids[i] == c then 1 else 0) + if x == c then 1 else 0
  {
    var n := |ids| - 1;
    if i < n {
      assert ids[i := x][..n] == ids[..n][i := x];
      CountUpdate(ids[..n], i, x, c);
    } else {
      assert ids[i := x][..n] == ids[..n];
    }
  }

  lemma {:induction false} CountZero(ids: seq<int>, c: int)
    ensures Count(ids, c) == 0 <==> c !in ids
  {
    if ids != [] {
      CountZero(ids[..|ids| - 1], c);
      assert ids == ids[..|ids| - 1] + [ids[|ids| - 1]];
    }
  }

  /** What moving one element does to the set of clusters with members. */
  lemma CommunitiesMoved(ids: seq<int>, i: nat, to: int)
    requires i < |ids|
    ensures var rest :=
              if ids[i] != to && Count(ids, ids[i]) == 1 then Communities(ids) - {ids[i]} else Communities(ids);
            Communities(ids[i := to]) == if to == -1 then rest else rest + {to}
    ensures ids[i] != -1 ==> ids[i] in Communities(ids) && Count(ids, ids[i]) >= 1
    ensures to != -1 ==> (to in Communities(ids) <==> Count(ids, to) > 0)
  {
    var from, ids' := ids[i], ids[i := to];
    CountZero(ids, from);
    CountZero(ids, to);
    CountUpdate(ids, i, to, from);
    CountZero(ids', from);
    forall c ensures c in ids' <==> c == to || (c in ids && (c != from || Count(ids', from) > 0)) {
      if c in ids && c != from {
        var j :| 0 <= j < |ids| && ids[j] == c;
        assert ids'[j] == c;
      }
      assert ids'[i] == to;
    }
  }

  /** One cluster fewer if the element was alone in its own, one more if it is the first in the new one. */
  lemma CommunitiesCounted(ids: seq<int>, i: nat, to: int)
    requires i < |ids|
    ensures |Communities(ids[i := to])| == |Communities(ids)|
              - (if ids[i] != -1 && ids[i] != to && Count(ids, ids[i]) == 1 then 1 else 0)
              + (if to != -1 && ids[i] != to && Count(ids, to) == 0 then 1 else 0)
  {
    CommunitiesMoved(ids, i, to);
    var from, all := ids[i], Communities(ids);
    var rest := if from != to && Count(ids, from) == 1 then all - {from} else all;
    assert from in all ==> |all - {from}| == |all| - 1;
    assert from !in all ==> all - {from} == all;
    assert to in rest ==> rest + {to} == rest;
  }

  lemma CommunitiesAppend(ids: seq<int>, x: int)
    requires x != -1
    ensures Communities(ids + [x]) == Communities(ids) + {x}
    ensures x in Communities(ids) <==> Count(ids, x) > 0
  {
    CountZero(ids, x);
  }

  /** Every node in a cluster of its own. */
  function Iota(n: nat): (s: seq<int>)
    ensures |s| == n && forall v {:trigger s[v]} | 0 <= v < n :: s[v] == v
  {
    seq(n, v => v)
  }

  lemma {:induction false} IotaHistogram(n: nat)
    ensures |Communities(Iota(n))| == n
    ensures forall c {:trigger Count(Iota(n), c)} :: Count(Iota(n), c) == if 0 <= c < n then 1 else 0
  {
    if n > 0 {
      IotaHistogram(n - 1);
      assert Iota(n) == Iota(n - 1) + [n - 1];
      CommunitiesAppend(Iota(n - 1), n - 1);
      forall c ensures Count(Iota(n), c) == if 0 <= c < n then 1 else 0 {
        CountAppend(Iota(n - 1), n - 1, c);
        assert Count(Iota(n - 1), c) == if 0 <= c < n - 1 then 1 else 0;
      }
    } else {
      assert Communities(Iota(n)) == {};
    }
  }

  /** Two nodes have the same number exactly when they are in the same cluster. */
  ghost predicate SameClusters(ids: seq<int>, numbers: seq<int>) {
    && |ids| == |numbers|
    && forall u, v {:trigger ids[u], ids[v]} {:trigger numbers[u], numbers[v]} | 0 <= u < |ids| && 0 <= v < |ids| ::
         ids[u] == ids[v] <==> numbers[u] == numbers[v]
  }

  /** All numbers below k are in use, and no others. */
  ghost predicate Onto(numbers: seq<int>, k: nat) {
    && (forall v {:trigger numbers[v]} | 0 <= v < |numbers| :: 0 <= numbers[v] < k)
    && forall x {:trigger x in numbers} | 0 <= x < k :: x in numbers
  }

  /** The clusters met so far are numbered in the order they are met. */
  ghost predicate Numbered(ids: seq<int>, clusterToNode: seq<nat>, numbers: seq<nat>, k: nat) {
    && |ids| == |numbers| <= |clusterToNode| <= INVALID_NODE && k <= |ids| && k == |Communities(ids)|
    && (forall u {:trigger ids[u]} {:trigger numbers[u]} | 0 <= u < |ids| ::
          0 <= ids[u] < |clusterToNode| && clusterToNode[ids[u]] == numbers[u] && numbers[u] < k)
    && (forall c {:trigger clusterToNode[c]} | 0 <= c < |clusterToNode| ::
          clusterToNode[c] == INVALID_NODE || (clusterToNode[c] < k && c in Communities(ids)))
    && (forall c, d {:trigger clusterToNode[c], clusterToNode[d]} | 0 <= c < d < |clusterToNode| ::
          clusterToNode[c] == clusterToNode[d] ==> clusterToNode[c] == INVALID_NODE)
    && (forall x {:trigger x in numbers} | 0 <= x < k :: x in numbers)
  }

  lemma FirstsAppend(s: seq<int>, x: int)
    ensures Firsts(s + [x]) == Firsts(s) + if x in s then [] else [x]
  {
    assert (s + [x])[..|s|] == s;
    FirstsElements(s, x);
  }

  lemma NextFirst(numbers: seq<nat>, k: nat)
    requires Firsts(numbers) == Iota(k)
    ensures Firsts(numbers + [k]) == Iota(k + 1)
  {
    FirstsElements(numbers, k);
    assert k !in Iota(k);
    FirstsAppend(numbers, k);
    assert Iota(k) + [k] == Iota(k + 1);
  }

  /** One more node of a cluster that has a number. */
  lemma NumberedKnown(ids: seq<int>, clusterToNode: seq<nat>, numbers: seq<nat>, k: nat, c: nat)
    requires Numbered(ids, clusterToNode, numbers, k) && |ids| < |clusterToNode| && c < |clusterToNode|
    requires clusterToNode[c] != INVALID_NODE
    ensures Numbered(ids + [c], clusterToNode, numbers + [clusterToNode[c]], k)
  {
    CommunitiesAppend(ids, c);
    assert Communities(ids) + {c} == Communities(ids);
  }

  /** One more node, whose cluster gets the next number. */
  lemma NumberedNew(ids: seq<int>, clusterToNode: seq<nat>, numbers: seq<nat>, k: nat, c: nat)
    requires Numbered(ids, clusterToNode, numbers, k) && |ids| < |clusterToNode| && c < |clusterToNode|
    requires clusterToNode[c] == INVALID_NODE
    ensures Numbered(ids + [c], clusterToNode[c := k], numbers + [k], k + 1)
  {
    CommunitiesAppend(ids, c);
    forall u {:trigger ids[u]} | 0 <= u < |ids| ensures ids[u] != c {
      assert clusterToNode[ids[u]] == numbers[u];
    }
  }

  /** The number of the next node: that of its cluster, or the next new one. */
  method NumberNext(clusterToNode: seq<nat>, newCid: nat, c: nat, ghost ids: seq<int>, ghost numbers: seq<nat>)
    returns (clusterToNode': seq<nat>, newCid': nat, number: nat)
    requires Numbered(ids, clusterToNode, numbers, newCid) && |ids| < |clusterToNode| && c < |clusterToNode|
    requires Firsts(numbers) == Iota(newCid)
    ensures Numbered(ids + [c], clusterToNode', numbers + [number], newCid') && |clusterToNode'| == |clusterToNode|
    ensures Firsts(numbers + [number]) == Iota(newCid')
    ensures number < |clusterToNode|
  {
    clusterToNode', newCid' := clusterToNode, newCid;
    if clusterToNode'[c] != INVALID_NODE {
      NumberedKnown(ids, clusterToNode, numbers, newCid, c);
      assert clusterToNode[c] in numbers;
      FirstsAppend(numbers, clusterToNode[c]);
    } else {
      NumberedNew(ids, clusterToNode, numbers, newCid, c);
      NextFirst(numbers, newCid);
      clusterToNode' := clusterToNode'[c := newCid'];
      newCid' := newCid' + 1;
    }
    number := clusterToNode'[c];
    assert (numbers + [number])[|numbers|] == number && (ids + [c])[|ids|] == c;
  }

  lemma OneRenumbered(ids: seq<int>, now: seq<int>, v: nat)
    requires v < |ids| == |now| && now[v..] == ids[v..]
    ensures now[v] == ids[v] && ids[..v + 1] == ids[..v] + [now[v]]
    ensures forall x {:trigger now[v := x]} ::
              now[v := x][..v + 1] == now[..v] + [x] && now[v := x][v + 1..] == ids[v + 1..]
  {
    assert now[v] == now[v..][0] && ids[v] == ids[v..][0];
    assert now[v + 1..] == now[v..][1..] && ids[v + 1..] == ids[v..][1..];
  }

  lemma NumberedAll(ids: seq<int>, clusterToNode: seq<nat>, numbers: seq<nat>, k: nat)
    requires Numbered(ids, clusterToNode, numbers, k)
    ensures SameClusters(ids, numbers) && Onto(numbers, k) && k == |Communities(ids)| == |Communities(numbers)|
  {
    forall u, v {:trigger ids[u], ids[v]} {:trigger numbers[u], numbers[v]} | 0 <= u < |ids| && 0 <= v < |ids|
      ensures ids[u] == ids[v] <==> numbers[u] == numbers[v]
    {
      assert clusterToNode[ids[u]] == numbers[u] && clusterToNode[ids[v]] == numbers[v];
    }
    IotaHistogram(k);
    assert Communities(numbers) == Communities(Iota(k)) by {
      forall c ensures c in Communities(numbers) <==> c in Communities(Iota(k)) {
        if 0 <= c < k {
          assert Iota(k)[c] == c;
          assert c in numbers;
        }
      }
    }
  }

  lemma MembersOnto(cluster: seq<int>, k: nat, c: nat)
    requires Onto(cluster, k) && c < k
    ensures Members(cluster, |cluster|, c) != []
  {
    assert c in cluster;
    var v :| 0 <= v < |cluster| && cluster[v] == c;
    MembersRight(cluster, |cluster|, c);
    assert v in Members(cluster, |cluster|, c);
  }

  lemma OneMoreMember(before: seq<nat>, cluster: seq<int>, v: nat, c: nat)
    requires v < |cluster|
    ensures before + Members(cluster, v + 1, c) == before + Members(cluster, v, c) + if cluster[v] == c then [v] else []
  {}

  /** The cluster of the node at a place in the order. */
  lemma PlaceOfCluster(cluster: seq<int>, k: nat, c: nat, i: nat)
    requires c < k && |Ordered(cluster, |cluster|, c)| <= i < |Ordered(cluster, |cluster|, c + 1)|
    ensures i < |Ordered(cluster, |cluster|, k)| && Ordered(cluster, |cluster|, k)[i] < |cluster|
    ensures cluster[Ordered(cluster, |cluster|, k)[i]] == c
  {
    var n := |cluster|;
    var start := |Ordered(cluster, n, c)|;
    OrderedBlock(cluster, n, c, k);
    assert Ordered(cluster, n, k)[i] == Ordered(cluster, n, k)[start..|Ordered(cluster, n, c + 1)|][i - start];
    MembersRight(cluster, n, c);
    assert Ordered(cluster, n, k)[i] == Members(cluster, n, c)[i - start];
  }

  /** Between the start of cluster c and the start of the next one. */
  ghost predicate Inside(cluster: seq<int>, k: nat, c: nat, i: nat) {
    if c < k then |Ordered(cluster, |cluster|, c)| <= i <= |Ordered(cluster, |cluster|, c + 1)| else i == |cluster|
  }

  /** The nodes in order and a sentinel, which is in a cluster of its own. */
  ghost predicate Scanned(cluster: seq<int>, k: nat, nodeIds: seq<nat>, clusters: seq<int>) {
    Onto(cluster, k) && nodeIds == Ordered(cluster, |cluster|, k) + [|cluster|] && clusters == cluster + [k]
  }

  lemma ClusterStarts(cluster: seq<int>, k: nat, c: nat)
    requires Onto(cluster, k) && c <= k
    ensures if c < k then |Ordered(cluster, |cluster|, c)| < |Ordered(cluster, |cluster|, c + 1)| <= |cluster|
            else |Ordered(cluster, |cluster|, c)| == |cluster|
  {
    OrderedSize(cluster, |cluster|, k);
    if c < k {
      MembersOnto(cluster, k, c);
      OrderedBlock(cluster, |cluster|, c, k);
    }
  }

  lemma SeenAt(cluster: seq<int>, k: nat, c: nat, i: nat, nodeIds: seq<nat>, clusters: seq<int>)
    requires Scanned(cluster, k, nodeIds, clusters) && c <= k
    requires if c < k then |Ordered(cluster, |cluster|, c)| <= i < |Ordered(cluster, |cluster|, c + 1)|
             else i == |cluster|
    ensures i < |nodeIds| && nodeIds[i] < |clusters| && clusters[nodeIds[i]] == c
  {
    ClusterStarts(cluster, k, k);
    if c < k {
      PlaceOfCluster(cluster, k, c, i);
    }
  }

  /** At the start of a cluster, a scan of the nodes in order sees that cluster. */
  lemma ScanStarts(cluster: seq<int>, k: nat, c: nat, nodeIds: seq<nat>, clusters: seq<int>)
    requires Scanned(cluster, k, nodeIds, clusters) && c <= k
    ensures var start := |Ordered(cluster, |cluster|, c)|;
            start < |nodeIds| == |cluster| + 1 && nodeIds[start] < |clusters| && clusters[nodeIds[start]] == c
  {
    ClusterStarts(cluster, k, c);
    ClusterStarts(cluster, k, k);
    SeenAt(cluster, k, c, |Ordered(cluster, |cluster|, c)|, nodeIds, clusters);
  }

  /** From there on it sees the same cluster, up to the start of the next. */
  lemma ScanSees(cluster: seq<int>, k: nat, c: nat, i: nat, nodeIds: seq<nat>, clusters: seq<int>)
    requires Scanned(cluster, k, nodeIds, clusters) && c <= k && Inside(cluster, k, c, i)
    ensures |Ordered(cluster, |cluster|, c)| <= i < |nodeIds| && nodeIds[i] < |clusters|
    ensures clusters[nodeIds[i]] == c <==> c == k || i < |Ordered(cluster, |cluster|, c + 1)|
  {
    ClusterStarts(cluster, k, c);
    if c == k || i < |Ordered(cluster, |cluster|, c + 1)| {
      SeenAt(cluster, k, c, i, nodeIds, clusters);
    } else {
      ClusterStarts(cluster, k, c + 1);
      SeenAt(cluster, k, c + 1, i, nodeIds, clusters);
    }
  }

  /** The nodes between the start of a cluster and that of the next are its members. */
  lemma ScanCollects(cluster: seq<int>, k: nat, c: nat, nodeIds: seq<nat>, clusters: seq<int>)
    requires Scanned(cluster, k, nodeIds, clusters) && c < k
    ensures |Ordered(cluster, |cluster|, c)| <= |Ordered(cluster, |cluster|, c + 1)| <= |nodeIds|
    ensures nodeIds[|Ordered(cluster, |cluster|, c)|..|Ordered(cluster, |cluster|, c + 1)|]
         == Members(cluster, |cluster|, c)
  {
    OrderedPrefix(cluster, |cluster|, c + 1, k);
    PrefixAppend(Ordered(cluster, |cluster|, c + 1), Ordered(cluster, |cluster|, k), [|cluster|]);
    Slice(Ordered(cluster, |cluster|, c), Members(cluster, |cluster|, c), nodeIds);
  }

  /** The next cluster starts where this one ends. */
  lemma ScanMoves(cluster: seq<int>, k: nat, c: nat, i: nat)
    requires Onto(cluster, k) && c < k && i == |Ordered(cluster, |cluster|, c + 1)|
    ensures if c + 1 < k then Inside(cluster, k, c + 1, i) && Inside(cluster, k, c + 1, i + 1) else i == |cluster|
  {
    ClusterStarts(cluster, k, c + 1);
  }

  /** The weight of the last edge of node v that leads back to v, or zero. */
  function LoopOf(row: seq<Edge>, v: nat): real {
    if row == [] then 0.0
    else if row[|row| - 1].target == v then row[|row| - 1].weight
    else LoopOf(row[..|row| - 1], v)
  }

  /** If there is at most one such edge, all of them weigh that together. */
  lemma {:induction false} LoopWeight(row: seq<Edge>, v: nat)
    requires Simple(row)
    ensures LoopOf(row, v) == Weigh(row, Unit(v))
  {
    if row != [] {
      var n := |row| - 1;
      assert At(Unit(v), row[n].target) == if row[n].target == v then 1.0 else 0.0;
      if row[n].target == v {
        forall x | 0 <= x < n ensures At(Unit(v), row[..n][x].target) == 0.0 {
          assert row[x].target != row[n].target;
        }
        WeighNothing(row[..n], Unit(v));
      } else {
        LoopWeight(row[..n], v);
      }
    }
  }

  /** What the rows of a contracted graph measure. */
  ghost predicate RowsMeasure(rows: seq<seq<Edge>>, cluster: seq<int>, coarse: seq<seq<Edge>>)
    requires |rows| == |cluster|
  {
    && TotalWeight(coarse, |coarse|) == TotalWeight(rows, |rows|)
    && forall a {:trigger coarse[a]} | 0 <= a < |coarse| ::
         && RowWeight(coarse[a]) == Degrees(rows, |rows|, cluster, a)
         && LoopOf(coarse[a], a) == Between(rows, |rows|, cluster, a, a)
  }

  lemma ContractedRowsMeasure(rows: seq<seq<Edge>>, cluster: seq<int>, coarse: seq<seq<Edge>>)
    requires Closed(rows) && IsContraction(rows, cluster, coarse)
    ensures RowsMeasure(rows, cluster, coarse)
  {
    ContractionMeasured(rows, cluster, coarse);
    forall a {:trigger coarse[a]} | 0 <= a < |coarse| ensures LoopOf(coarse[a], a) == Weigh(coarse[a], Unit(a)) {
      LoopWeight(coarse[a], a);
    }
  }

  /** One entry per cluster in every row, in the order in which the edges of the members of
      the cluster meet them. */
  ghost predicate RowsInOrderMet(rows: seq<seq<Edge>>, cluster: seq<int>, coarse: seq<seq<Edge>>)
    requires |rows| == |cluster|
  {
    forall a {:trigger coarse[a]} | 0 <= a < |coarse| ::
      InOrderMet(coarse[a], rows, cluster, Members(cluster, |cluster|, a), [])
  }

  /** Where the hypernodes are, now that the nodes they are at have become others. */
  function Moved(mapping: seq<nat>, numbers: seq<nat>): (moved: seq<nat>)
    requires forall h {:trigger mapping[h]} | 0 <= h < |mapping| :: mapping[h] < |numbers| || mapping[h] == INVALID_NODE
    ensures |moved| == |mapping|
  {
    seq(|mapping|, h requires 0 <= h < |mapping| =>
      if mapping[h] != INVALID_NODE then numbers[mapping[h]] else INVALID_NODE)
  }

  class Graph {
    const numNodes: nat
    var numCommunities: int
    var totalWeight: real
    const adjArray: seq<nat>
    const edges: seq<Edge>
    var selfloopWeight: seq<real>
    var weightedDegree: seq<real>
    var clusterId: seq<int>
    var clusterSize: seq<int>
    var incidentClusterWeight: seq<Edge>
    var incidentClusterWeightPosition: map<int, nat>
    const hypernodeMapping: seq<nat>

    ghost predicate Shaped() {
      && Adjacency(adjArray, edges) && |adjArray| == numNodes + 1 && numNodes <= INVALID_NODE
      && Targets(edges, numNodes)
      && forall h {:trigger hypernodeMapping[h]} | 0 <= h < |hypernodeMapping| ::
           hypernodeMapping[h] < numNodes || hypernodeMapping[h] == INVALID_NODE
    }

    function Rows(): (rows: seq<seq<Edge>>)
      requires Shaped()
      ensures |rows| == numNodes && Closed(rows)
      ensures forall v {:trigger rows[v]} | 0 <= v < |rows| :: rows[v] == edges[adjArray[v]..adjArray[v + 1]]
    {
      RowsOf(adjArray, edges)
    }

    /** Cluster ids are nodes or none, and the sizes and the number of clusters are theirs. */
    ghost predicate Histogram()
      reads `clusterId, `clusterSize, `numCommunities
    {
      && |clusterId| == |clusterSize| == numNodes
      && (forall v {:trigger clusterId[v]} | 0 <= v < numNodes :: -1 <= clusterId[v] < numNodes)
      && (forall c {:trigger clusterSize[c]} | 0 <= c < numNodes :: clusterSize[c] == Count(clusterId, c))
      && numCommunities == |Communities(clusterId)|
    }

    /** Weighted degrees and the total weight are those of the edges. */
    ghost predicate Measured()
      requires Shaped()
      reads `totalWeight, `weightedDegree, `selfloopWeight
    {
      && |weightedDegree| == |selfloopWeight| == numNodes
      && totalWeight == TotalWeight(Rows(), numNodes)
      && (forall v {:trigger weightedDegree[v]} | 0 <= v < numNodes :: weightedDegree[v] == RowWeight(Rows()[v]))
      && (forall v {:trigger selfloopWeight[v]} | 0 <= v < numNodes :: selfloopWeight[v] == LoopOf(Rows()[v], v))
    }

    ghost predicate Valid()
      reads this
    {
      Shaped() && Histogram() && Measured() && |incidentClusterWeight| == numNodes
    }

    /** Puts a node in a cluster, or in none. */
    method SetClusterId(node: nat, cId: int)
      requires Histogram() && node < numNodes && -1 <= cId < numNodes
      modifies `clusterId, `clusterSize, `numCommunities
      ensures Histogram() && clusterId == old(clusterId)[node := cId]
    {
      var from, to := clusterId[node], cId;
      CommunitiesCounted(clusterId, node, to);
      forall c ensures Count(clusterId[node := to], c)
        == Count(clusterId, c) - (if from == c then 1 else 0) + if to == c then 1 else 0 {
        CountUpdate(clusterId, node, to, c);
      }
      if from != -1 && from != to && clusterSize[from] == 1 {
        numCommunities := numCommunities - 1;
      }
      if to != -1 && from != to && clusterSize[to] == 0 {
        numCommunities := numCommunities + 1;
      }
      if to != -1 {
        clusterSize := clusterSize[to := clusterSize[to] + 1];
      }
      if from != -1 {
        clusterSize := clusterSize[from := clusterSize[from] - 1];
      }
      clusterId := clusterId[node := to];
    }

    /** Measures the edges of the next node. */
    method MeasureRow(node: nat)
      requires Shaped() && node < numNodes && |weightedDegree| == |selfloopWeight| == numNodes
      requires weightedDegree[node] == 0.0 && selfloopWeight[node] == 0.0
      modifies `selfloopWeight, `totalWeight, `weightedDegree
      ensures |weightedDegree| == |selfloopWeight| == numNodes
      ensures totalWeight == old(totalWeight) + RowWeight(Rows()[node])
      ensures weightedDegree == old(weightedDegree)[node := RowWeight(Rows()[node])]
      ensures forall u {:trigger selfloopWeight[u]} | 0 <= u < numNodes && u != node ::
                selfloopWeight[u] == old(selfloopWeight)[u]
      ensures selfloopWeight[node] == LoopOf(Rows()[node], node)
    {
      ghost var row := Rows()[node];
      for i := adjArray[node] to adjArray[node + 1]
        invariant |weightedDegree| == |selfloopWeight| == numNodes
        invariant totalWeight == old(totalWeight) + RowWeight(row[..i - adjArray[node]])
        invariant weightedDegree == old(weightedDegree)[node := RowWeight(row[..i - adjArray[node]])]
        invariant forall u {:trigger selfloopWeight[u]} | 0 <= u < numNodes && u != node ::
                    selfloopWeight[u] == old(selfloopWeight)[u]
        invariant selfloopWeight[node] == LoopOf(row[..i - adjArray[node]], node)
      {
        var e := edges[i];
        ghost var j := i - adjArray[node];
        assert row[j] == e && row[..j + 1][..j] == row[..j];
        if node == e.target {
          selfloopWeight := selfloopWeight[node := e.weight];
        }
        totalWeight := totalWeight + e.weight;
        weightedDegree := weightedDegree[node := weightedDegree[node] + e.weight];
      }
      assert row[..|row|] == row;
    }

    /** What is measured once the first m nodes are. */
    ghost predicate MeasuredBelow(m: nat)
      requires Shaped() && m <= numNodes
      reads `totalWeight, `weightedDegree, `selfloopWeight
    {
      && |weightedDegree| == |selfloopWeight| == numNodes
      && totalWeight == TotalWeight(Rows(), m)
      && (forall v {:trigger weightedDegree[v]} | 0 <= v < numNodes ::
            weightedDegree[v] == if v < m then RowWeight(Rows()[v]) else 0.0)
      && (forall v {:trigger selfloopWeight[v]} | 0 <= v < m :: selfloopWeight[v] == LoopOf(Rows()[v], v))
      && (forall v {:trigger selfloopWeight[v]} | m <= v < numNodes :: selfloopWeight[v] == 0.0)
    }

    /** A graph with every node in a cluster of its own. */
    constructor (adj: seq<nat>, es: seq<Edge>)
      requires Adjacency(adj, es) && |adj| - 1 <= INVALID_NODE && Targets(es, |adj| - 1)
      ensures Valid() && adjArray == adj && edges == es && numNodes == |adj| - 1 && clusterId == Iota(numNodes)
      ensures hypernodeMapping == Iota(numNodes)
    {
      numNodes := |adj| - 1;
      numCommunities := |adj| - 1;
      totalWeight := 0.0;
      adjArray := adj;
      edges := es;
      selfloopWeight := seq(|adj| - 1, _ => 0.0);
      weightedDegree := seq(|adj| - 1, _ => 0.0);
      clusterId := Iota(|adj| - 1);
      clusterSize := seq(|adj| - 1, _ => 1);
      incidentClusterWeight := seq(|adj| - 1, _ => Edge(0, 0.0));
      incidentClusterWeightPosition := map[];
      hypernodeMapping := seq(|adj| - 1, v => v);
      new;
      IotaHistogram(numNodes);
      for node := 0 to numNodes
        invariant Shaped() && Histogram() && MeasuredBelow(node) && |incidentClusterWeight| == numNodes
        invariant clusterId == Iota(numNodes)
      {
        MeasureRow(node);
      }
    }

    /** A contracted graph, with clusters given. */
    constructor Contracted(adj: seq<nat>, es: seq<Edge>, mapping: seq<nat>, cluster: seq<int>)
      requires Adjacency(adj, es) && |adj| - 1 <= INVALID_NODE && Targets(es, |adj| - 1) && |cluster| == |adj| - 1
      requires forall h {:trigger mapping[h]} | 0 <= h < |mapping| ::
                 mapping[h] < |adj| - 1 || mapping[h] == INVALID_NODE
      requires forall v {:trigger cluster[v]} | 0 <= v < |cluster| :: 0 <= cluster[v] < |cluster|
      ensures Valid() && adjArray == adj && edges == es && clusterId == cluster && hypernodeMapping == mapping
      ensures numNodes == |adj| - 1
    {
      numNodes := |adj| - 1;
      numCommunities := 0;
      totalWeight := 0.0;
      adjArray := adj;
      edges := es;
      selfloopWeight := seq(|adj| - 1, _ => 0.0);
      weightedDegree := seq(|adj| - 1, _ => 0.0);
      clusterId := cluster;
      clusterSize := seq(|adj| - 1, _ => 0);
      incidentClusterWeight := seq(|adj| - 1, _ => Edge(0, 0.0));
      incidentClusterWeightPosition := map[];
      hypernodeMapping := mapping;
      new;
      assert clusterId[..0] == [];
      for node := 0 to numNodes
        invariant Shaped() && MeasuredBelow(node) && |incidentClusterWeight| == numNodes
        invariant clusterId == cluster && |clusterSize| == numNodes
        invariant forall c {:trigger clusterSize[c]} | 0 <= c < numNodes ::
                    clusterSize[c] == Count(clusterId[..node], c)
        invariant numCommunities == |Communities(clusterId[..node])|
      {
        CountNode(node);
        MeasureRow(node);
      }
      assert clusterId[..numNodes] == clusterId;
    }

    /** Counts the next node. */
    method CountNode(node: nat)
      requires node < numNodes == |clusterId| == |clusterSize| && 0 <= clusterId[node] < numNodes
      requires forall c {:trigger clusterSize[c]} | 0 <= c < numNodes :: clusterSize[c] == Count(clusterId[..node], c)
      requires numCommunities == |Communities(clusterId[..node])|
      modifies `clusterSize, `numCommunities
      ensures |clusterSize| == numNodes
      ensures forall c {:trigger clusterSize[c]} | 0 <= c < numNodes ::
                clusterSize[c] == Count(clusterId[..node + 1], c)
      ensures numCommunities == |Communities(clusterId[..node + 1])|
    {
      var c := clusterId[node];
      assert clusterId[..node + 1] == clusterId[..node] + [c];
      CommunitiesAppend(clusterId[..node], c);
      forall x ensures Count(clusterId[..node + 1], x) == Count(clusterId[..node], x) + if x == c then 1 else 0 {
        CountAppend(clusterId[..node], c, x);
      }
      if clusterSize[c] == 0 {
        numCommunities := numCommunities + 1;
      }
      clusterSize := clusterSize[c := clusterSize[c] + 1];
    }

    /** Renumbers the clusters in the order of their first nodes, in place. */
    method Renumber() returns (numbers: seq<nat>, newCid: nat)
      requires Shaped() && Histogram() && forall v {:trigger clusterId[v]} | 0 <= v < numNodes :: clusterId[v] != -1
      modifies `clusterId, `clusterSize, `numCommunities
      ensures Histogram() && clusterId == numbers && newCid == numCommunities == old(numCommunities)
              && newCid <= numNodes
      ensures SameClusters(old(clusterId), numbers) && Onto(numbers, newCid) && Firsts(numbers) == Iota(newCid)
    {
      ghost var ids := clusterId;
      var clusterToNode: seq<nat> := seq(numNodes, _ => INVALID_NODE);
      numbers := [];
      newCid := 0;
      for node := 0 to numNodes
        invariant |clusterToNode| == numNodes && |numbers| == node
        invariant Histogram() && Numbered(ids[..node], clusterToNode, numbers, newCid)
        invariant Firsts(numbers) == Iota(newCid)
        invariant clusterId[..node] == numbers && clusterId[node..] == ids[node..]
      {
        var cid := clusterId[node];
        var number;
        OneRenumbered(ids, clusterId, node);
        clusterToNode, newCid, number := NumberNext(clusterToNode, newCid, cid, ids[..node], numbers);
        numbers := numbers + [number];
        SetClusterId(node, number);
      }
      assert ids[..numNodes] == ids && clusterId[..numNodes] == clusterId;
      NumberedAll(ids, clusterToNode, numbers, newCid);
    }

    /** Where the hypernodes go, now that nodes have been contracted. */
    method MapHypernodes(numbers: seq<nat>) returns (mapping: seq<nat>)
      requires Shaped() && |numbers| == numNodes
      ensures mapping == Moved(hypernodeMapping, numbers)
    {
      mapping := seq(|hypernodeMapping|, _ => INVALID_NODE);
      for hn := 0 to |hypernodeMapping|
        invariant |mapping| == |hypernodeMapping|
        invariant forall h {:trigger mapping[h]} | 0 <= h < |mapping| ::
                    mapping[h] == if h < hn && hypernodeMapping[h] != INVALID_NODE
                                  then numbers[hypernodeMapping[h]] else INVALID_NODE
      {
        if hypernodeMapping[hn] != INVALID_NODE {
          mapping := mapping[hn := numbers[hypernodeMapping[hn]]];
        }
      }
    }

    /** The filled part of the table of incident clusters. */
    ghost function Entries(idx: nat): seq<Edge>
      requires idx <= |incidentClusterWeight|
      reads `incidentClusterWeight
    {
      incidentClusterWeight[..idx]
    }

    /** Enters one edge in the table under the cluster of its target. */
    method EnterEdge(idx: nat, e: Edge, ghost k: nat) returns (idx': nat)
      requires idx <= |incidentClusterWeight| && k <= |incidentClusterWeight|
               && Table(Entries(idx), incidentClusterWeightPosition, k)
      requires e.target < |clusterId| && 0 <= clusterId[e.target] < k
      modifies `incidentClusterWeight, `incidentClusterWeightPosition
      ensures |incidentClusterWeight| == old(|incidentClusterWeight|) && idx' <= |incidentClusterWeight|
      ensures Table(Entries(idx'), incidentClusterWeightPosition, k)
      ensures Entries(idx')
           == Entered(old(Entries(idx)), old(incidentClusterWeightPosition), clusterId[e.target], e.weight)
    {
      var cId: nat := clusterId[e.target];
      ghost var table := Entries(idx);
      EnteredRight(table, incidentClusterWeightPosition, k, cId, e.weight);
      if cId in incidentClusterWeightPosition {
        var i := incidentClusterWeightPosition[cId];
        incidentClusterWeight :=
          incidentClusterWeight[i := incidentClusterWeight[i].(weight := incidentClusterWeight[i].weight + e.weight)];
        idx' := idx;
        assert Entries(idx') == table[i := table[i].(weight := table[i].weight + e.weight)];
      } else {
        TableFits(table, incidentClusterWeightPosition, k, cId);
        incidentClusterWeight := incidentClusterWeight[idx := Edge(cId, e.weight)];
        incidentClusterWeightPosition := incidentClusterWeightPosition[cId := idx];
        idx' := idx + 1;
        assert Entries(idx') == table + [Edge(cId, e.weight)];
      }
    }

    /** Gathers one more edge. */
    method GatherEdge(idx: nat, e: Edge, ghost nodes: seq<nat>, ghost part: seq<Edge>, ghost k: nat) returns (idx': nat)
      requires Shaped() && |clusterId| == numNodes == |incidentClusterWeight| && k <= numNodes && idx <= numNodes
      requires NodesBelow(nodes, numNodes) && Table(Entries(idx), incidentClusterWeightPosition, k)
      requires e.target < numNodes && 0 <= clusterId[e.target] < k
      requires Holds(Entries(idx), Rows(), clusterId, nodes, part)
      requires InOrderMet(Entries(idx), Rows(), clusterId, nodes, part)
      modifies `incidentClusterWeight, `incidentClusterWeightPosition
      ensures |incidentClusterWeight| == numNodes && idx' <= numNodes
      ensures Table(Entries(idx'), incidentClusterWeightPosition, k)
      ensures Holds(Entries(idx'), Rows(), clusterId, nodes, part + [e])
      ensures InOrderMet(Entries(idx'), Rows(), clusterId, nodes, part + [e])
    {
      HoldsEdge(Entries(idx), incidentClusterWeightPosition, k, Rows(), clusterId, nodes, part, e);
      MetEdge(Entries(idx), incidentClusterWeightPosition, k, Rows(), clusterId, nodes, part, e);
      idx' := EnterEdge(idx, e, k);
    }

    /** Gathers the weight of the edges of some nodes by the cluster they lead to. */
    method IncidentClusterWeightOfCluster(nodes: seq<nat>, ghost k: nat) returns (idx: nat)
      requires Shaped() && NodesBelow(nodes, numNodes) && |clusterId| == numNodes == |incidentClusterWeight|
               && k <= numNodes
      requires forall v {:trigger clusterId[v]} | 0 <= v < numNodes :: 0 <= clusterId[v] < k
      modifies `incidentClusterWeight, `incidentClusterWeightPosition
      ensures |incidentClusterWeight| == numNodes && idx <= numNodes
      ensures Targets(incidentClusterWeight[..idx], k) && Simple(incidentClusterWeight[..idx])
      ensures Holds(incidentClusterWeight[..idx], Rows(), clusterId, nodes, [])
      ensures InOrderMet(incidentClusterWeight[..idx], Rows(), clusterId, nodes, [])
    {
      incidentClusterWeightPosition := map[];
      idx := 0;
      ghost var rows := Rows();
      HoldsNothing(rows, clusterId);
      MetNothing(rows, clusterId);
      for n := 0 to |nodes|
        invariant |incidentClusterWeight| == numNodes && idx <= numNodes
        invariant Table(Entries(idx), incidentClusterWeightPosition, k)
        invariant Holds(Entries(idx), rows, clusterId, nodes[..n], [])
        invariant InOrderMet(Entries(idx), rows, clusterId, nodes[..n], [])
      {
        var node := nodes[n];
        idx := GatherNode(idx, node, nodes[..n], k);
        assert nodes[..n + 1] == nodes[..n] + [node];
      }
      assert nodes[..|nodes|] == nodes;
      TableSimple(Entries(idx), incidentClusterWeightPosition, k);
    }

    /** The same for one more node. */
    method GatherNode(idx: nat, node: nat, ghost nodes: seq<nat>, ghost k: nat) returns (idx': nat)
      requires Shaped() && |clusterId| == numNodes == |incidentClusterWeight| && k <= numNodes && idx <= numNodes
      requires forall v {:trigger clusterId[v]} | 0 <= v < numNodes :: 0 <= clusterId[v] < k
      requires NodesBelow(nodes, numNodes) && node < numNodes
      requires Table(Entries(idx), incidentClusterWeightPosition, k)
               && Holds(Entries(idx), Rows(), clusterId, nodes, [])
      requires InOrderMet(Entries(idx), Rows(), clusterId, nodes, [])
      modifies `incidentClusterWeight, `incidentClusterWeightPosition
      ensures |incidentClusterWeight| == numNodes && idx' <= numNodes
      ensures Table(Entries(idx'), incidentClusterWeightPosition, k)
      ensures NodesBelow(nodes + [node], numNodes) && Holds(Entries(idx'), Rows(), clusterId, nodes + [node], [])
      ensures InOrderMet(Entries(idx'), Rows(), clusterId, nodes + [node], [])
    {
      ghost var rows := Rows();
      ghost var row := rows[node];
      idx' := idx;
      for i := adjArray[node] to adjArray[node + 1]
        invariant |incidentClusterWeight| == numNodes && idx' <= numNodes
        invariant Table(Entries(idx'), incidentClusterWeightPosition, k)
        invariant Holds(Entries(idx'), rows, clusterId, nodes, row[..i - adjArray[node]])
        invariant InOrderMet(Entries(idx'), rows, clusterId, nodes, row[..i - adjArray[node]])
      {
        ghost var j := i - adjArray[node];
        assert row[j] == edges[i] && row[..j + 1] == row[..j] + [row[j]];
        idx' := GatherEdge(idx', edges[i], nodes, row[..j], k);
      }
      assert row[..|row|] == row;
      HoldsNode(Entries(idx'), rows, clusterId, nodes, node);
      MetNode(Entries(idx'), rows, clusterId, nodes, node);
    }

    /** Appends the nodes of a cluster. */
    method AppendMembers(nodeIds: seq<nat>, c: nat) returns (nodeIds': seq<nat>)
      requires |clusterId| == numNodes
      ensures nodeIds' == nodeIds + Members(clusterId, numNodes, c)
    {
      nodeIds' := nodeIds;
      for v := 0 to numNodes
        invariant nodeIds' == nodeIds + Members(clusterId, v, c)
      {
        OneMoreMember(nodeIds, clusterId, v, c);
        if clusterId[v] == c {
          nodeIds' := nodeIds' + [v];
        }
      }
    }

    /** The nodes ordered by cluster and, within a cluster, by number. */
    method NodesInOrder(k: nat) returns (nodeIds: seq<nat>)
      requires |clusterId| == numNodes
      ensures nodeIds == Ordered(clusterId, numNodes, k)
    {
      nodeIds := [];
      for c := 0 to k
        invariant nodeIds == Ordered(clusterId, numNodes, c)
      {
        nodeIds := AppendMembers(nodeIds, c);
      }
    }

    /** The rows so far gather what the members of their clusters have. */
    ghost predicate Contracts(coarse: seq<seq<Edge>>, k: nat)
      requires Shaped() && |clusterId| == numNodes
      reads `clusterId
    {
      forall a {:trigger coarse[a]} | 0 <= a < |coarse| ::
        && Targets(coarse[a], k) && Gathers(Rows(), clusterId, a, coarse[a])
        && InOrderMet(coarse[a], Rows(), clusterId, Members(clusterId, numNodes, a), [])
    }

    lemma RowsContract(coarse: seq<seq<Edge>>, k: nat)
      requires Shaped() && |clusterId| == numNodes && Onto(clusterId, k) && Contracts(coarse, k) && |coarse| == k
      ensures IsContraction(Rows(), clusterId, coarse) && RowsInOrderMet(Rows(), clusterId, coarse)
    {}

    /** The edges of the next contracted node. */
    method ContractCluster(nodes: seq<nat>, ghost coarse: seq<seq<Edge>>, ghost k: nat) returns (row: seq<Edge>)
      requires Shaped() && |clusterId| == numNodes == |incidentClusterWeight| && k <= numNodes && Onto(clusterId, k)
      requires nodes == Members(clusterId, numNodes, |coarse|) && Contracts(coarse, k)
      modifies `incidentClusterWeight, `incidentClusterWeightPosition
      ensures |incidentClusterWeight| == numNodes && Contracts(coarse + [row], k)
    {
      var idx := IncidentClusterWeightOfCluster(nodes, k);
      row := incidentClusterWeight[..idx];
      HoldsGathers(Rows(), clusterId, |coarse|, row);
    }

    /** Appends the edges of the next contracted node, which is that of cluster cid. */
    method AppendCluster(nodes: seq<nat>, cid: nat, adj: seq<nat>, es: seq<Edge>, ghost rows: seq<seq<Edge>>,
                         ghost k: nat)
      returns (newAdj: seq<nat>, newEdges: seq<Edge>, ghost coarse: seq<seq<Edge>>)
      requires Shaped() && |clusterId| == numNodes == |incidentClusterWeight| && k <= numNodes && Onto(clusterId, k)
      requires cid == |rows| < k && nodes == Members(clusterId, numNodes, cid) && Contracts(rows, k)
      requires es == Flat(rows) && |adj| == k + 1 && Offsets(adj, rows, |rows|)
      modifies `incidentClusterWeight, `incidentClusterWeightPosition
      ensures |incidentClusterWeight| == numNodes
      ensures |coarse| == |rows| + 1 && Contracts(coarse, k) && newEdges == Flat(coarse)
      ensures |newAdj| == k + 1 && Offsets(newAdj, coarse, |coarse|)
    {
      var row := ContractCluster(nodes, rows, k);
      OffsetsAppend(adj, rows, row);
      FlatAppend(rows, row);
      newAdj := adj[cid := |es|];
      newEdges := es + row;
      coarse := rows + [row];
    }

    /** The adjacency array of the contracted graph, for clusters numbered below k. */
    method ContractEdges(k: nat) returns (newAdj: seq<nat>, newEdges: seq<Edge>, ghost coarse: seq<seq<Edge>>)
      requires Shaped() && |clusterId| == numNodes == |incidentClusterWeight| && k <= numNodes && Onto(clusterId, k)
      modifies `incidentClusterWeight, `incidentClusterWeightPosition
      ensures |incidentClusterWeight| == numNodes
      ensures |coarse| == k && Contracts(coarse, k) && newEdges == Flat(coarse)
      ensures |newAdj| == k + 1 && Offsets(newAdj, coarse, k + 1)
    {
      var nodeIds := NodesInOrder(k);
      nodeIds := nodeIds + [numNodes];
      var clusters := clusterId + [k];
      newAdj := seq(k + 1, _ => 0);
      newEdges := [];
      coarse := [];
      var startIdx := 0;
      ghost var c := 0;
      ClusterStarts(clusterId, k, 0);
      for i := 0 to numNodes + 1
        invariant c <= k && |coarse| == c && startIdx == |Ordered(clusterId, numNodes, c)|
        invariant if c < k then Inside(clusterId, k, c, i) else i >= numNodes
        invariant newEdges == Flat(coarse) && Contracts(coarse, k) && |incidentClusterWeight| == numNodes
        invariant |newAdj| == k + 1 && Offsets(newAdj, coarse, c)
      {
        ScanStarts(clusterId, k, c, nodeIds, clusters);
        ScanSees(clusterId, k, c, i, nodeIds, clusters);
        if clusters[nodeIds[startIdx]] != clusters[nodeIds[i]] {
          ScanMoves(clusterId, k, c, i);
          ScanCollects(clusterId, k, c, nodeIds, clusters);
          newAdj, newEdges, coarse :=
            AppendCluster(nodeIds[startIdx..i], clusters[nodeIds[startIdx]], newAdj, newEdges, coarse, k);
          startIdx := i;
          c := c + 1;
        }
      }
      if c < k {
        ClusterStarts(clusterId, k, c);
        assert false;
      }
      OffsetsAppend(newAdj, coarse, []);
      newAdj := newAdj[k := |newEdges|];
    }

    /** The contracted graph, once clusters are numbered in order. */
    method ContractRenumbered(numbers: seq<nat>, k: nat) returns (graph: Graph)
      requires Shaped() && clusterId == numbers && |numbers| == numNodes == |incidentClusterWeight| && k <= numNodes
               && Onto(numbers, k)
      modifies `incidentClusterWeight, `incidentClusterWeightPosition
      ensures |incidentClusterWeight| == numNodes
      ensures fresh(graph) && graph.Valid() && graph.numNodes == graph.numCommunities == k
      ensures IsContraction(Rows(), numbers, graph.Rows()) && graph.clusterId == Iota(k)
      ensures RowsInOrderMet(Rows(), numbers, graph.Rows())
      ensures graph.totalWeight == TotalWeight(Rows(), numNodes)
      ensures forall a {:trigger graph.weightedDegree[a]} | 0 <= a < k ::
                graph.weightedDegree[a] == Degrees(Rows(), numNodes, numbers, a)
      ensures forall a {:trigger graph.selfloopWeight[a]} | 0 <= a < k ::
                graph.selfloopWeight[a] == Between(Rows(), numNodes, numbers, a, a)
      ensures graph.hypernodeMapping == Moved(hypernodeMapping, numbers)
    {
      var mapping := MapHypernodes(numbers);
      var newAdj, newEdges;
      ghost var coarse;
      newAdj, newEdges, coarse := ContractEdges(k);
      FlatAdjacency(newAdj, coarse);
      FlatTargets(coarse, k);
      RowsContract(coarse, k);
      ContractedRowsMeasure(Rows(), numbers, coarse);
      IotaHistogram(k);
      graph := new Graph.Contracted(newAdj, newEdges, mapping, Iota(k));
      assert graph.Rows() == coarse;
    }

    /** Contracts every cluster to one node. The cluster ids become the nodes of the new graph. */
    method ContractClusters() returns (graph: Graph, nodeToContractedNode: seq<nat>)
      requires Valid() && forall v {:trigger clusterId[v]} | 0 <= v < numNodes :: clusterId[v] != -1
      modifies `clusterId, `clusterSize, `numCommunities, `incidentClusterWeight, `incidentClusterWeightPosition
      ensures fresh(graph) && graph.Valid() && Valid()
      ensures clusterId == nodeToContractedNode
              && numCommunities == old(numCommunities) == graph.numNodes == graph.numCommunities
      ensures SameClusters(old(clusterId), nodeToContractedNode) && Onto(nodeToContractedNode, graph.numNodes)
      ensures Firsts(nodeToContractedNode) == Iota(graph.numNodes) && graph.numNodes <= numNodes
      ensures IsContraction(Rows(), nodeToContractedNode, graph.Rows()) && graph.clusterId == Iota(graph.numNodes)
      ensures RowsInOrderMet(Rows(), nodeToContractedNode, graph.Rows())
      ensures graph.totalWeight == totalWeight
      ensures forall a {:trigger graph.weightedDegree[a]} | 0 <= a < graph.numNodes ::
                graph.weightedDegree[a] == Degrees(Rows(), numNodes, nodeToContractedNode, a)
      ensures forall a {:trigger graph.selfloopWeight[a]} | 0 <= a < graph.numNodes ::
                graph.selfloopWeight[a] == Between(Rows(), numNodes, nodeToContractedNode, a, a)
      ensures graph.hypernodeMapping == Moved(hypernodeMapping, nodeToContractedNode)
    {
      var newCid;
      nodeToContractedNode, newCid := Renumber();
      graph := ContractRenumbered(nodeToContractedNode, newCid);
    }
  }
}
