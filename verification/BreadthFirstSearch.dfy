/** The state of a breadth-first search in a residual graph, as values, and what each
    step of the search does to it. */
module BreadthFirstSearch {
  import opened Sums
  import opened FlowNetwork

  /** p leads from root to x and is what following the parent links from x yields. */
  ghost predicate RootedPath(r: Matrix, parent: seq<int>, root: nat, x: nat, p: seq<nat>) {
    && Path(r, p)
    && |parent| == |r|
    && p[0] == root && p[|p| - 1] == x
    && parent[root] == -1
    && forall i | 0 < i < |p| :: parent[p[i]] == p[i - 1]
  }

  /** tree records a rooted path for each node found so far. */
  ghost predicate SearchTree(r: Matrix, parent: seq<int>, root: nat, tree: map<nat, seq<nat>>) {
    && root in tree
    && forall x | x in tree :: RootedPath(r, parent, root, x, tree[x]) && forall y | y in tree[x] :: y in tree
  }

  /** The nodes marked are those marked at the start and those in the tree. */
  ghost predicate Marked(visited: seq<bool>, start: set<nat>, tree: map<nat, seq<nat>>) {
    forall x | 0 <= x < |visited| :: visited[x] <==> x in start || x in tree
  }

  /** All residual successors of x below bound are marked. */
  ghost predicate Expanded(r: Matrix, visited: seq<bool>, x: nat, bound: nat) {
    && |visited| == |r|
    && x < |r| && |r[x]| == |r|
    && forall y | 0 <= y < bound && y < |r| :: r[x][y] != 0 ==> visited[y]
  }

  /** Every node that has left the queue, other than current, has been expanded. */
  ghost predicate Processed(r: Matrix, visited: seq<bool>, tree: map<nat, seq<nat>>, q: seq<nat>, current: int) {
    && (forall x | x in q :: x in tree)
    && forall x | x in tree && x !in q && x != current :: Expanded(r, visited, x, |r|)
  }

  /** Setting the parent of a node off the path does not disturb the path. */
  lemma PathKept(r: Matrix, parent: seq<int>, root: nat, x: nat, p: seq<nat>, u: nat, v: nat)
    requires RootedPath(r, parent, root, x, p)
    requires v !in p && v < |r|
    ensures RootedPath(r, parent[v := u], root, x, p)
  {
    forall i | 0 <= i < |p| ensures p[i] != v {
      assert p[i] in p;
    }
  }

  lemma PathExtended(r: Matrix, parent: seq<int>, root: nat, u: nat, v: nat, p: seq<nat>)
    requires RootedPath(r, parent, root, u, p)
    requires v !in p && v < |r| && parent[v] == u
    requires u < |r| && r[u][v] != 0
    ensures RootedPath(r, parent, root, v, p + [v])
  {
    var p' := p + [v];
    forall i | 0 < i < |p'| ensures r[p'[i - 1]][p'[i]] != 0 && parent[p'[i]] == p'[i - 1] {
      if i < |p| {
        assert r[p[i - 1]][p[i]] != 0;
      }
    }
  }

  lemma GrowTree(r: Matrix, parent: seq<int>, root: nat, tree: map<nat, seq<nat>>, u: nat, v: nat)
    requires SearchTree(r, parent, root, tree)
    requires u in tree && v !in tree && v < |r|
    requires u < |r| && |r[u]| == |r| && r[u][v] != 0
    ensures SearchTree(r, parent[v := u], root, tree[v := tree[u] + [v]])
  {
    var tree' := tree[v := tree[u] + [v]];
    forall x | x in tree
      ensures RootedPath(r, parent[v := u], root, x, tree[x])
    {
      PathKept(r, parent, root, x, tree[x], u, v);
    }
    PathExtended(r, parent[v := u], root, u, v, tree[u]);
  }

  /** What holds while the successors of u are scanned and those below v are done. */
  ghost predicate Scanning(r: Matrix, parent: seq<int>, visited: seq<bool>, root: nat, start: set<nat>,
                           tree: map<nat, seq<nat>>, q: seq<nat>, u: nat, v: nat)
  {
    && SearchTree(r, parent, root, tree)
    && Marked(visited, start, tree)
    && Processed(r, visited, tree, q, u)
    && u in tree
    && Expanded(r, visited, u, v)
  }

  /** Marking v when it is found from u, and putting it in the queue. */
  lemma Discover(r: Matrix, parent: seq<int>, visited: seq<bool>, root: nat, start: set<nat>,
                 tree: map<nat, seq<nat>>, q: seq<nat>, u: nat, v: nat)
    requires Scanning(r, parent, visited, root, start, tree, q, u, v)
    requires v < |r| && !visited[v] && r[u][v] != 0
    ensures v !in tree
    ensures Scanning(r, parent[v := u], visited[v := true], root, start, tree[v := tree[u] + [v]], q + [v], u, v + 1)
  {
    assert RootedPath(r, parent, root, u, tree[u]);
    GrowTree(r, parent, root, tree, u, v);
    var tree', visited' := tree[v := tree[u] + [v]], visited[v := true];
    forall x | x in tree' && x !in q + [v] && x != u ensures Expanded(r, visited', x, |r|) {
      assert x in tree && x !in q;
      assert Expanded(r, visited, x, |r|);
    }
  }

  lemma TreeSize(r: Matrix, parent: seq<int>, root: nat, tree: map<nat, seq<nat>>)
    requires SearchTree(r, parent, root, tree)
    ensures |tree| <= |r|
  {
    forall x | x in tree.Keys ensures x < |r| {
      assert RootedPath(r, parent, root, x, tree[x]);
    }
    BoundedSetSize(tree.Keys, |r|);
    assert |tree| == |tree.Keys|;
  }

  /** The state of the search between two rounds of its outer loop. */
  ghost predicate Searching(r: Matrix, parent: seq<int>, visited: seq<bool>, root: nat, start: set<nat>,
                            tree: map<nat, seq<nat>>, q: seq<nat>)
  {
    && SearchTree(r, parent, root, tree)
    && Marked(visited, start, tree)
    && Processed(r, visited, tree, q, -1)
  }

  lemma SearchStarts(r: Matrix, parent: seq<int>, visited: seq<bool>, root: nat, start: set<nat>)
    requires Square(r, |r|) && |parent| == |visited| == |r| && root < |r|
    requires forall x | 0 <= x < |visited| :: visited[x] <==> x in start || x == root
    requires parent[root] == -1
    ensures Searching(r, parent, visited, root, start, map[root := [root]], [root])
  {}

  lemma ScanStarts(r: Matrix, parent: seq<int>, visited: seq<bool>, root: nat, start: set<nat>,
                   tree: map<nat, seq<nat>>, q: seq<nat>)
    requires Searching(r, parent, visited, root, start, tree, q) && q != []
    requires |visited| == |r|
    ensures q[0] < |r| && Scanning(r, parent, visited, root, start, tree, q[1..], q[0], 0)
  {
    assert RootedPath(r, parent, root, q[0], tree[q[0]]);
    forall x | x in tree && x !in q[1..] && x != q[0] ensures Expanded(r, visited, x, |r|) {
      assert x !in q;
    }
  }

  lemma ScanEnds(r: Matrix, parent: seq<int>, visited: seq<bool>, root: nat, start: set<nat>,
                 tree: map<nat, seq<nat>>, q: seq<nat>, u: nat)
    requires Scanning(r, parent, visited, root, start, tree, q, u, |r|)
    ensures Searching(r, parent, visited, root, start, tree, q)
    ensures |tree| <= |r|
  {
    TreeSize(r, parent, root, tree);
  }

  /** c contains every node that an arc with residual capacity leads to from within c. */
  ghost predicate Closed(r: Matrix, c: set<nat>) {
    && Square(r, |r|)
    && forall a, b | a in c && a < |r| && 0 <= b < |r| && r[a][b] != 0 :: b in c
  }

  /** A path that starts in a closed set stays in it. */
  lemma {:induction false} PathStaysInside(r: Matrix, p: seq<nat>, c: set<nat>)
    requires Path(r, p) && Closed(r, c) && p[0] in c
    ensures forall i | 0 <= i < |p| :: p[i] in c
  {
    if |p| > 1 {
      var q := p[..|p| - 1];
      PathStaysInside(r, q, c);
      assert q[|q| - 1] in c;
      assert r[p[|p| - 2]][p[|p| - 1]] != 0;
    }
  }
}
