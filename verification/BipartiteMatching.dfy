module BipartiteMatching {
  import opened Sums
  import opened FlowNetwork
  import opened BreadthFirstSearch
  import opened Koenig

  /** The largest value of the flow's type, a signed 32-bit integer. */
  const MAX_FLOW: int := 0x7fff_ffff

  class MinimumBipartiteVertexCover {
    const graph: Matrix
    const numNodes: nat
    const residual: array2<int>
    const visited: array<bool>
    const parent: array<int>
    var matchingCalculated: bool
    var maximumMatching: seq<Edge>
    /** The residual graph of the maximum flow, which outlives the removal of the outer arcs. */
    ghost var network: Matrix
    /** What the last search of the flow computation found. */
    ghost var cut: set<nat>

    ghost predicate Shaped()
    {
      && Square(graph, |graph|)
      && numNodes == 2 * |graph| + 2
      && residual.Length0 == numNodes && residual.Length1 == numNodes
      && visited.Length == numNodes && parent.Length == numNodes
    }

    /** The residual graph as a value. */
    ghost function R(): (r: Matrix)
      requires Shaped()
      reads residual
      ensures Square(r, numNodes)
      ensures forall a, b | 0 <= a < numNodes && 0 <= b < numNodes :: r[a][b] == residual[a, b]
    {
      seq(numNodes, a requires 0 <= a < numNodes reads residual =>
        seq(numNodes, b requires 0 <= b < numNodes reads residual => residual[a, b]))
    }

    /** A maximum flow of the network with its matching and its cut. */
    ghost predicate Solved()
      requires Shaped()
      reads this
    {
      && FlowOf(graph, network, |maximumMatching|)
      && ReadBack(graph, network, maximumMatching)
      && Alternating(graph, network, cut)
    }

    ghost predicate Valid()
      reads this, residual
    {
      && Shaped()
      && if matchingCalculated then Solved() && (R() == network || Stripped(|graph|, network, R()))
         else FlowOf(graph, R(), 0)
    }

    ghost function VisitedSet(): set<nat>
      requires Shaped()
      reads visited
    {
      set x: nat | x < numNodes && visited[x]
    }

    constructor (g: Matrix)
      requires Square(g, |g|)
      ensures Valid() && graph == g && !matchingCalculated
      ensures fresh(residual) && fresh(visited) && fresh(parent)
    {
      var k := |g|;
      var n := 2 * k + 2;
      graph := g;
      numNodes := n;
      residual := new int[n, n]((a, b) => 0);
      visited := new bool[n](_ => false);
      parent := new int[n](_ => -1);
      matchingCalculated := false;
      maximumMatching := [];
      network, cut := [], {};
      new;
      BuildNetwork();
    }

    /** Fills in the capacities: the edges of the graph, then the arcs out of the source,
        then those into the sink. */
    method BuildNetwork()
      requires Shaped()
      requires forall a, b | 0 <= a < numNodes && 0 <= b < numNodes :: residual[a, b] == 0
      modifies residual
      ensures FlowOf(graph, R(), 0)
    {
      var k := |graph|;
      for i := 0 to k
        invariant forall a, b | 0 <= a < numNodes && 0 <= b < numNodes ::
                    residual[a, b] == if a < i then Capacity(graph, a, b) else 0
      {
        for j := 0 to k
          invariant forall a, b | 0 <= a < numNodes && 0 <= b < numNodes ::
                      residual[a, b] == if a < i || (a == i && b < j + k) then Capacity(graph, a, b) else 0
        {
          if graph[i][j] != 0 {
            residual[i, j + k] := 1;
          }
        }
      }
      for i := 0 to k
        invariant forall a, b | 0 <= a < numNodes && 0 <= b < numNodes ::
                    residual[a, b] == if a < k || (a == 2 * k && b < i) then Capacity(graph, a, b) else 0
      {
        residual[Source(k), i] := 1;
      }
      for i := 0 to k
        invariant forall a, b | 0 <= a < numNodes && 0 <= b < numNodes ::
                    residual[a, b] == if a < k + i || a == 2 * k then Capacity(graph, a, b) else 0
      {
        residual[i + k, Sink(k)] := 1;
      }
      NetworkIsZeroFlow(graph, R());
    }

    method ResetVisited()
      requires Shaped()
      modifies visited
      ensures forall x | 0 <= x < numNodes :: !visited[x]
    {
      for i := 0 to numNodes
        invariant forall x | 0 <= x < i :: !visited[x]
      {
        visited[i] := false;
      }
    }

    /** The inner loop of the search: marks and queues the unmarked successors of u. */
    method Scan(u: nat, queue: seq<nat>, ghost root: nat, ghost start: set<nat>, ghost found: map<nat, seq<nat>>)
      returns (q: seq<nat>, ghost tree: map<nat, seq<nat>>)
      requires Shaped() && u < numNodes
      requires Scanning(R(), parent[..], visited[..], root, start, found, queue, u, 0)
      requires Sink(|graph|) in found ==> Sink(|graph|) in queue
      modifies visited, parent
      ensures Searching(R(), parent[..], visited[..], root, start, tree, q)
      ensures |tree| <= numNodes
      ensures Sink(|graph|) in tree ==> Sink(|graph|) in q
      ensures |tree| > |found| || (|tree| == |found| && |q| == |queue|)
    {
      q, tree := queue, found;
      ghost var r := R();
      for v: nat := 0 to numNodes
        invariant Scanning(r, parent[..], visited[..], root, start, tree, q, u, v)
        invariant Sink(|graph|) in tree ==> Sink(|graph|) in q
        invariant |tree| > |found| || (|tree| == |found| && |q| == |queue|)
      {
        if !visited[v] && residual[u, v] != 0 {
          ghost var marks, links := visited[..], parent[..];
          Discover(r, links, marks, root, start, tree, q, u, v);
          q := q + [v];
          visited[v] := true;
          parent[v] := u;
          assert visited[..] == marks[v := true] && parent[..] == links[v := u];
          tree := tree[v := tree[u] + [v]];
        }
      }
      ScanEnds(r, parent[..], visited[..], root, start, tree, q, u);
    }

    /** The outer loop of the search, on top of the marks that are already there. */
    method Search(node: nat) returns (found: bool, ghost tree: map<nat, seq<nat>>)
      requires Shaped() && node < numNodes
      modifies visited, parent
      ensures SearchTree(R(), parent[..], node, tree)
      ensures Marked(visited[..], old(VisitedSet()), tree)
      ensures found <==> Sink(|graph|) in tree
      ensures !found ==> Processed(R(), visited[..], tree, [], -1)
    {
      ghost var start, r, sink := VisitedSet(), R(), Sink(|graph|);
      var q: seq<nat> := [node];
      visited[node] := true;
      parent[node] := -1;
      tree := map[node := [node]];
      SearchStarts(r, parent[..], visited[..], node, start);
      while q != []
        invariant Searching(r, parent[..], visited[..], node, start, tree, q)
        invariant sink in tree ==> sink in q
        invariant |tree| <= numNodes
        decreases numNodes - |tree|, |q|
      {
        ScanStarts(r, parent[..], visited[..], node, start, tree, q);
        var u := q[0];
        if u == Sink(|graph|) {
          return true, tree;
        }
        q, tree := Scan(u, q[1..], node, start, tree);
      }
      return false, tree;
    }

    /** Breadth-first search for the sink from the given node. The marks of earlier
        searches are kept unless reset is set; tree holds, for every node marked by this
        search, the path by which it was found. */
    method Bfs(node: nat, reset: bool := true) returns (found: bool, ghost tree: map<nat, seq<nat>>)
      requires Shaped() && node < numNodes
      modifies visited, parent
      ensures SearchTree(R(), parent[..], node, tree)
      ensures Marked(visited[..], if reset then {} else old(VisitedSet()), tree)
      ensures found <==> Sink(|graph|) in tree
      ensures !found ==> Processed(R(), visited[..], tree, [], -1)
    {
      if reset {
        ResetVisited();
      }
      found, tree := Search(node);
    }

    /** Moves m units of residual capacity from the arc (a, b) to its reversal. */
    method SendOver(a: nat, b: nat, m: int)
      requires Shaped() && a < numNodes && b < numNodes && a != b
      modifies residual
      ensures R() == Push(old(R()), a, b, m)
    {
      ghost var before := R();
      residual[a, b] := residual[a, b] - m;
      residual[b, a] := residual[b, a] + m;
      forall x | 0 <= x < numNodes ensures R()[x] == Push(before, a, b, m)[x] {}
    }

    /** Sends the bottleneck of the path that the parent links describe along that path,
        from the source outwards. */
    method Augment(u: nat, flow: int, ghost root: nat, ghost path: seq<nat>) returns (minFlow: int)
      requires Shaped() && u < numNodes
      requires RootedPath(R(), parent[..], root, u, path)
      modifies residual
      ensures minFlow == Bottleneck(old(R()), path, flow)
      ensures R() == Augmented(old(R()), path, minFlow)
      decreases |path|
    {
      ghost var r, q := R(), path[..|path| - 1];
      if parent[u] == -1 {
        assert path[|path| - 1] == u;
        return flow;
      }
      var p: nat := parent[u];
      assert q != [] && q[|q| - 1] == p;
      minFlow := Augment(p, if residual[p, u] < flow then residual[p, u] else flow, root, q);
      SendOver(p, u, minFlow);
    }

    /** Augments until the sink is out of reach. What the last search marked then
        separates the source from the sink. */
    method MaximumFlow() returns (maxFlow: int)
      requires Shaped() && FlowOf(graph, R(), 0)
      modifies residual, visited, parent
      ensures FlowOf(graph, R(), maxFlow)
      ensures 0 <= maxFlow <= |graph|
      ensures Alternating(graph, R(), VisitedSet())
    {
      maxFlow := 0;
      var source := Source(|graph|);
      var found;
      ghost var tree;
      found, tree := Bfs(source);
      SourceRowSum(graph, R());
      while found
        invariant FlowOf(graph, R(), maxFlow) && 0 <= maxFlow <= |graph|
        invariant SearchTree(R(), parent[..], source, tree)
        invariant Marked(visited[..], {}, tree)
        invariant found <==> Sink(|graph|) in tree
        invariant !found ==> Processed(R(), visited[..], tree, [], -1)
        decreases |graph| - maxFlow, found
      {
        var flow := AugmentToSink(tree, maxFlow);
        maxFlow := maxFlow + flow;
        found, tree := Bfs(source);
        SourceRowSum(graph, R());
      }
      CutIsAlternating(graph, R(), parent[..], visited[..], tree, VisitedSet());
    }

    /** One augmentation of a flow: it adds exactly one unit. */
    method AugmentToSink(ghost tree: map<nat, seq<nat>>, ghost value: int) returns (flow: int)
      requires Shaped() && FlowOf(graph, R(), value)
      requires SearchTree(R(), parent[..], Source(|graph|), tree) && Sink(|graph|) in tree
      modifies residual
      ensures flow == 1 && FlowOf(graph, R(), value + 1)
    {
      var sink := Sink(|graph|);
      ghost var path := tree[sink];
      assert RootedPath(R(), parent[..], Source(|graph|), sink, path);
      UnitBottleneck(graph, R(), path, MAX_FLOW);
      AugmentationAddsOne(graph, R(), path, value);
      flow := Augment(sink, MAX_FLOW, Source(|graph|), path);
    }

    /** Appends the pair of left vertex i and right vertex j, if they are matched. */
    method ReadEntry(i: nat, j: nat, before: seq<Edge>) returns (matching: seq<Edge>)
      requires Shaped() && i < |graph| && j < |graph| && 0 <= residual[j + |graph|, i] <= 1
      requires ReadUpTo(graph, R(), before, i, j)
      ensures ReadUpTo(graph, R(), matching, i, j + 1)
      ensures |matching| == |before| + PartnersOf(graph, R(), i)[j]
    {
      matching := before;
      assert PartnersOf(graph, R(), i)[j] == residual[j + |graph|, i];
      if residual[j + |graph|, i] != 0 {
        ReadAdd(graph, R(), matching, i, j);
        matching := matching + [(i, j)];
      } else {
        ReadSkip(graph, R(), matching, i, j);
      }
    }

    /** Appends the partner of left vertex i, if there is one. */
    method ReadRow(i: nat, before: seq<Edge>) returns (matching: seq<Edge>)
      requires Shaped() && i < |graph|
      requires forall x, y | 0 <= x < numNodes && 0 <= y < numNodes :: 0 <= residual[x, y] <= 1
      requires ReadUpTo(graph, R(), before, i, 0)
      ensures ReadUpTo(graph, R(), matching, i + 1, 0)
      ensures |matching| == |before| + Sum(PartnersOf(graph, R(), i))
    {
      matching := before;
      var k := numNodes / 2 - 1;
      ghost var partners := PartnersOf(graph, R(), i);
      for j := 0 to k
        invariant ReadUpTo(graph, R(), matching, i, j)
        invariant |matching| == |before| + Sum(partners[..j])
      {
        SumPrefix(partners, j);
        matching := ReadEntry(i, j, matching);
      }
      assert partners[..k] == partners;
    }

    /** Reads the matching off the residual graph of a maximum flow: left vertex i and
        right vertex j are matched when the arc from the latter to the former is there. */
    method FindMaximumBipartiteMatching() returns (matching: seq<Edge>)
      requires Shaped() && FlowOf(graph, R(), 0)
      modifies residual, visited, parent
      ensures FlowOf(graph, R(), |matching|)
      ensures ReadBack(graph, R(), matching)
      ensures Alternating(graph, R(), VisitedSet())
    {
      var maxFlow := MaximumFlow();
      forall x, y | 0 <= x < numNodes && 0 <= y < numNodes ensures 0 <= residual[x, y] <= 1 {
        ResidualIsUnit(graph, R(), x, y);
      }
      DegreesSum(graph, R(), maxFlow);
      matching := ReadMatching();
    }

    method ReadMatching() returns (matching: seq<Edge>)
      requires Shaped()
      requires forall x, y | 0 <= x < numNodes && 0 <= y < numNodes :: 0 <= residual[x, y] <= 1
      ensures ReadBack(graph, R(), matching)
      ensures |matching| == Sum(Degrees(graph, R()))
    {
      matching := [];
      var k := numNodes / 2 - 1;
      ghost var degrees := Degrees(graph, R());
      for i := 0 to k
        invariant ReadUpTo(graph, R(), matching, i, 0)
        invariant |matching| == Sum(degrees[..i])
      {
        matching := ReadRow(i, matching);
        SumPrefix(degrees, i);
      }
      assert degrees[..k] == degrees;
    }

    /** The maximum matching, computed on the first call and remembered. */
    method ComputeMaximumBipartiteMatching() returns (matching: seq<Edge>)
      requires Valid()
      modifies this, residual, visited, parent
      ensures Valid() && matchingCalculated && matching == maximumMatching
      ensures MaximumMatching(graph, matching)
      ensures old(matchingCalculated) ==> matching == old(maximumMatching) && R() == old(R())
    {
      if !matchingCalculated {
        maximumMatching := FindMaximumBipartiteMatching();
        matchingCalculated := true;
        network, cut := R(), VisitedSet();
      }
      KoenigTheorem(graph, network, maximumMatching, cut);
      matching := maximumMatching;
    }

    /** The left vertices that the matching leaves alone. */
    method UnmatchedVertices() returns (unmatched: seq<nat>)
      requires Shaped() && Solved()
      modifies visited
      ensures forall u | 0 <= u < |graph| :: u in unmatched <==> network[Source(|graph|)][u] != 0
      ensures forall u | u in unmatched :: u < |graph|
    {
      ResetVisited();
      var k := |graph|;
      for a := 0 to |maximumMatching|
        invariant forall x | 0 <= x < numNodes :: visited[x] <==> exists b | 0 <= b < a :: maximumMatching[b].0 == x
      {
        assert maximumMatching[a] in maximumMatching;
        visited[maximumMatching[a].0] := true;
      }
      unmatched := [];
      for u := 0 to k
        invariant forall x | 0 <= x < k :: x in unmatched <==> x < u && !visited[x]
        invariant forall x | x in unmatched :: x < k
      {
        if !visited[u] {
          unmatched := unmatched + [u];
        }
      }
      forall u | 0 <= u < k ensures visited[u] <==> network[Source(k)][u] == 0 {
        MatchedIffSaturated(graph, network, maximumMatching, u);
      }
    }

    /** Removes source and sink from the residual graph. */
    method StripOuterArcs()
      requires Shaped() && Square(network, numNodes)
      requires R() == network || Stripped(|graph|, network, R())
      modifies residual
      ensures Stripped(|graph|, network, R())
    {
      var k := |graph|;
      for u := 0 to k
        invariant forall a, b | 0 <= a < numNodes && 0 <= b < numNodes ::
                    residual[a, b] == if OuterArc(k, a, b, u) then 0 else old(residual[a, b])
      {
        residual[Source(k), u] := 0;
        residual[u, Source(k)] := 0;
        residual[u + k, Sink(k)] := 0;
        residual[Sink(k), u + k] := 0;
      }
    }

    /** Searches from one more unmatched left vertex, on top of the marks already there. */
    method ExtendMarks(u: nat)
      requires Shaped() && Solved() && Stripped(|graph|, network, R())
      requires u < |graph| && network[Source(|graph|)][u] != 0
      requires PartOfCut(graph, network, R(), cut, VisitedSet())
      modifies visited, parent
      ensures PartOfCut(graph, network, R(), cut, VisitedSet())
      ensures u in VisitedSet() && old(VisitedSet()) <= VisitedSet()
    {
      ghost var h := VisitedSet();
      var found;
      ghost var tree;
      found, tree := Bfs(u, false);
      SearchExtendsPart(graph, network, R(), cut, h, u, parent[..], visited[..], tree, VisitedSet());
    }

    /** Marks everything on alternating paths from unmatched left vertices. */
    method MarkAlternating(unmatched: seq<nat>)
      requires Shaped() && Solved() && Stripped(|graph|, network, R())
      requires forall u | 0 <= u < |graph| :: u in unmatched <==> network[Source(|graph|)][u] != 0
      requires forall u | u in unmatched :: u < |graph|
      modifies visited, parent
      ensures Alternating(graph, network, VisitedSet())
    {
      ResetVisited();
      for a := 0 to |unmatched|
        invariant PartOfCut(graph, network, R(), cut, VisitedSet())
        invariant forall b | 0 <= b < a :: unmatched[b] in VisitedSet()
      {
        assert unmatched[a] in unmatched;
        ExtendMarks(unmatched[a]);
      }
      PartIsAlternating(graph, network, R(), cut, VisitedSet());
    }

    /** The vertices of (L \ H) and then those of (R n H), H being the marked ones. */
    method CollectCover() returns (cover: seq<nat>)
      requires Shaped()
      ensures Elements(cover) == CoverOf(|graph|, VisitedSet())
      ensures |cover| == |CoverOf(|graph|, VisitedSet())|
      ensures forall x | x in cover :: x < 2 * |graph|
    {
      cover := [];
      var k := |graph|;
      for u := 0 to k
        invariant Collected(k, visited[..], cover, u)
      {
        CollectStep(k, visited[..], cover, u);
        if !visited[u] {
          cover := cover + [u];
        }
      }
      for u := k to 2 * k
        invariant Collected(k, visited[..], cover, u)
      {
        CollectStep(k, visited[..], cover, u);
        if visited[u] {
          cover := cover + [u];
        }
      }
      CollectedAll(k, visited[..], cover, VisitedSet());
    }

    /** The cover that belongs to the matching already computed. */
    method CoverOfMatching() returns (cover: seq<nat>)
      requires Valid() && matchingCalculated
      modifies residual, visited, parent
      ensures Valid()
      ensures MinimumCover(graph, Elements(cover))
      ensures |cover| == |maximumMatching|
      ensures forall x | x in cover :: x < 2 * |graph|
    {
      FindAlternating();
      KoenigTheorem(graph, network, maximumMatching, VisitedSet());
      cover := CollectCover();
    }

    /** Marks the set H of the construction. */
    method FindAlternating()
      requires Valid() && matchingCalculated
      modifies residual, visited, parent
      ensures Valid() && Alternating(graph, network, VisitedSet())
    {
      var unmatched := UnmatchedVertices();
      StripOuterArcs();
      MarkAlternating(unmatched);
    }

    method FindMinimumBipartiteVertexCover() returns (cover: seq<nat>)
      requires Valid()
      modifies this, residual, visited, parent
      ensures Valid() && matchingCalculated
      ensures old(matchingCalculated) ==> maximumMatching == old(maximumMatching)
      ensures MaximumMatching(graph, maximumMatching)
      ensures MinimumCover(graph, Elements(cover))
      ensures |cover| == |maximumMatching|
      ensures forall x | x in cover :: x < 2 * |graph|
    {
      var matching := ComputeMaximumBipartiteMatching();
      cover := CoverOfMatching();
    }
  }

  lemma MatchedIffSaturated(g: Matrix, r: Matrix, m: seq<Edge>, i: nat)
    requires Residual(g, r) && Conserving(g, r) && ReadBack(g, r, m) && i < |g|
    ensures r[Source(|g|)][i] == 0 <==> exists b | 0 <= b < |m| :: m[b].0 == i
  {
    if r[Source(|g|)][i] == 0 {
      var j := LeftPartner(g, r, i);
      var b :| 0 <= b < |m| && m[b] == (i, j);
    }
    if b :| 0 <= b < |m| && m[b].0 == i {
      assert m[b] in m;
      MatchedLeftSaturated(g, r, i, m[b].1);
    }
  }

  /** A search from an unmatched left vertex misses the sink and extends the part of the
      cut found by its predecessors. */
  lemma SearchExtendsPart(g: Matrix, r: Matrix, s: Matrix, c: set<nat>, h: set<nat>, u: nat,
                          parent: seq<int>, visited: seq<bool>, tree: map<nat, seq<nat>>, h': set<nat>)
    requires Residual(g, r) && Conserving(g, r) && Stripped(|g|, r, s)
    requires Alternating(g, r, c) && PartOfCut(g, r, s, c, h)
    requires u < |g| && r[Source(|g|)][u] != 0
    requires SearchTree(s, parent, u, tree) && |visited| == |s|
    requires Marked(visited, h, tree)
    requires Sink(|g|) !in tree ==> Processed(s, visited, tree, [], -1)
    requires forall x: nat :: x in h' <==> x < |s| && visited[x]
    requires forall x: nat | x in h :: x < |s|
    ensures PartOfCut(g, r, s, c, h') && u in h' && h <= h'
  {
    var k := |g|;
    if Sink(k) in tree {
      var x := Predecessor(s, parent, u, tree, Sink(k));
      StrippedOuter(g, r, s, x, Sink(k));
    }
    TreeStaysInCut(g, r, s, c, u, parent, tree);
    forall x, y | x in h' && x < |s| && 0 <= y < |s| && s[x][y] != 0 ensures y in h' {
      if x in tree {
        assert Expanded(s, visited, x, |s|);
      }
    }
    forall i: nat, j: nat | Matched(g, r, i, j) && i in h' ensures k + j in h' {
      if i in tree {
        PartnerFound(g, r, s, u, parent, tree, i, j);
      }
    }
  }

  /** A search from a vertex in the cut does not leave it. */
  lemma TreeStaysInCut(g: Matrix, r: Matrix, s: Matrix, c: set<nat>, u: nat, parent: seq<int>, tree: map<nat, seq<nat>>)
    requires Residual(g, r) && Stripped(|g|, r, s) && Alternating(g, r, c) && u < |g| && r[Source(|g|)][u] != 0
    requires SearchTree(s, parent, u, tree)
    ensures forall x | x in tree :: x in c
  {
    AlternatingIsClosed(g, r, s, c);
    forall x | x in tree ensures x in c {
      assert RootedPath(s, parent, u, x, tree[x]);
      PathStaysInside(s, tree[x], c);
    }
  }

  /** A search that finds a matched left vertex has come to it by its partner. */
  lemma PartnerFound(g: Matrix, r: Matrix, s: Matrix, u: nat, parent: seq<int>, tree: map<nat, seq<nat>>, i: nat,
                     j: nat)
    requires Residual(g, r) && Conserving(g, r) && Stripped(|g|, r, s) && u < |g| && r[Source(|g|)][u] != 0
    requires SearchTree(s, parent, u, tree) && Matched(g, r, i, j) && i in tree
    ensures |g| + j in tree
  {
    MatchedLeftSaturated(g, r, i, j);
    var x := Predecessor(s, parent, u, tree, i);
    OnlyPartnerLeadsBack(g, r, i, j, x);
  }

  /** When a search from the source misses the sink, its marks determine a cover. */
  lemma CutIsAlternating(g: Matrix, r: Matrix, parent: seq<int>, visited: seq<bool>, tree: map<nat, seq<nat>>,
                         h: set<nat>)
    requires Residual(g, r) && Conserving(g, r) && |visited| == |r|
    requires SearchTree(r, parent, Source(|g|), tree) && Sink(|g|) !in tree
    requires Marked(visited, {}, tree) && Processed(r, visited, tree, [], -1)
    requires forall x: nat :: x in h <==> x < |r| && visited[x]
    ensures Alternating(g, r, h)
  {
    var k := |g|;
    forall x, y | 0 <= x < |r| && 0 <= y < |r| && x in h && r[x][y] != 0 ensures y in h {
      assert Expanded(r, visited, x, |r|);
    }
    forall i: nat, j: nat | Matched(g, r, i, j) && i in h ensures k + j in h {
      var x := Predecessor(r, parent, Source(k), tree, i);
      OnlyPartnerLeadsBack(g, r, i, j, x);
    }
  }

  lemma Predecessor(r: Matrix, parent: seq<int>, root: nat, tree: map<nat, seq<nat>>, y: nat) returns (x: nat)
    requires SearchTree(r, parent, root, tree) && y in tree && y != root
    requires Square(r, |r|)
    ensures x in tree && x < |r| && y < |r| && r[x][y] != 0
  {
    var p := tree[y];
    assert RootedPath(r, parent, root, y, p);
    x := p[|p| - 2];
    assert x in p;
    assert r[p[|p| - 2]][p[|p| - 1]] != 0;
  }
}
