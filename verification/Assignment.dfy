/** Maximum-weight perfect matchings by the Hungarian method. */
module Assignment {
  import opened Sums
  import opened FlowNetwork
  import opened Koenig
  import opened BipartiteMatching

  function Lefts(m: seq<Edge>): seq<nat> {
    seq(|m|, a requires 0 <= a < |m| => m[a].0)
  }

  function Rights(m: seq<Edge>): seq<nat> {
    seq(|m|, a requires 0 <= a < |m| => m[a].1)
  }

  /** m matches each of k left vertices with one of k right vertices. */
  ghost predicate IsPerfect(k: nat, m: seq<Edge>) {
    && |m| == k
    && (forall a | 0 <= a < |m| :: m[a].0 < k && m[a].1 < k)
    && (forall a, b | 0 <= a < b < |m| :: m[a].0 != m[b].0 && m[a].1 != m[b].1)
  }

  function MatchingWeight(g: Matrix, m: seq<Edge>): int
    requires forall a | 0 <= a < |m| :: m[a].0 < |g| && m[a].1 < |g[m[a].0]|
  {
    Sum(seq(|m|, a requires 0 <= a < |m| => g[m[a].0][m[a].1]))
  }

  ghost predicate IsMaximumWeight(g: Matrix, m: seq<Edge>)
    requires Square(g, |g|)
  {
    && IsPerfect(|g|, m)
    && forall m' | IsPerfect(|g|, m') :: MatchingWeight(g, m') <= MatchingWeight(g, m)
  }

  /** Labels u and v form a weighted cover: together they reach every weight. */
  ghost predicate WeightedCover(g: Matrix, u: seq<int>, v: seq<int>) {
    && Square(g, |g|) && |u| == |g| && |v| == |g|
    && forall i, j {:trigger g[i][j]} | 0 <= i < |g| && 0 <= j < |g| :: u[i] + v[j] >= g[i][j]
  }

  function Cost(u: seq<int>, v: seq<int>): int { Sum(u) + Sum(v) }

  lemma LabelSum(k: nat, m: seq<Edge>, u: seq<int>, v: seq<int>)
    requires IsPerfect(k, m) && |u| == |v| == k
    ensures Sum(seq(k, a requires 0 <= a < k => u[m[a].0] + v[m[a].1])) == Cost(u, v)
  {
    PermutedSum(u, Lefts(m));
    PermutedSum(v, Rights(m));
    SumAdd(Select(u, Lefts(m)), Select(v, Rights(m)), seq(k, a requires 0 <= a < k => u[m[a].0] + v[m[a].1]));
  }

  /** No perfect matching weighs more than a weighted cover costs. */
  lemma WeightBelowCost(g: Matrix, u: seq<int>, v: seq<int>, m: seq<Edge>)
    requires WeightedCover(g, u, v) && IsPerfect(|g|, m)
    ensures MatchingWeight(g, m) <= Cost(u, v)
  {
    var k := |g|;
    LabelSum(k, m, u, v);
    SumMonotone(seq(|m|, a requires 0 <= a < |m| => g[m[a].0][m[a].1]),
                seq(k, a requires 0 <= a < k => u[m[a].0] + v[m[a].1]));
  }

  /** A perfect matching of tight pairs weighs as much as the cover costs, and so is of
      maximum weight. */
  lemma TightIsMaximum(g: Matrix, u: seq<int>, v: seq<int>, m: seq<Edge>)
    requires WeightedCover(g, u, v) && IsPerfect(|g|, m)
    requires forall a | 0 <= a < |m| :: u[m[a].0] + v[m[a].1] == g[m[a].0][m[a].1]
    ensures MatchingWeight(g, m) == Cost(u, v) && IsMaximumWeight(g, m)
  {
    var k := |g|;
    LabelSum(k, m, u, v);
    assert seq(|m|, a requires 0 <= a < |m| => g[m[a].0][m[a].1])
        == seq(k, a requires 0 <= a < k => u[m[a].0] + v[m[a].1]);
    forall m' | IsPerfect(k, m') ensures MatchingWeight(g, m') <= MatchingWeight(g, m) {
      WeightBelowCost(g, u, v, m');
    }
  }

  function Diagonal(k: nat): seq<Edge> {
    seq(k, i requires 0 <= i < k => (i, i))
  }

  /** A lower bound on the cost of every weighted cover. */
  function DiagonalWeight(g: Matrix): int
    requires forall i | 0 <= i < |g| :: |g[i]| == |g|
  {
    MatchingWeight(g, Diagonal(|g|))
  }

  lemma CostBounded(g: Matrix, u: seq<int>, v: seq<int>)
    requires WeightedCover(g, u, v)
    ensures DiagonalWeight(g) <= Cost(u, v)
  {
    WeightBelowCost(g, u, v, Diagonal(|g|));
  }

  // ------------------------------------------------------ adjusting the labels

  /** t marks the pairs whose weight the labels reach exactly. */
  ghost predicate TightGraph(g: Matrix, u: seq<int>, v: seq<int>, t: Matrix) {
    && Square(g, |g|) && |u| == |g| && |v| == |g| && Square(t, |g|)
    && forall i, j {:trigger t[i][j]} | 0 <= i < |g| && 0 <= j < |g| ::
         t[i][j] == if u[i] + v[j] == g[i][j] then 1 else 0
  }

  function LoweredLeft(u: seq<int>, c: set<nat>, e: int): seq<int> {
    seq(|u|, i requires 0 <= i < |u| => if i in c then u[i] else u[i] - e)
  }

  function RaisedRight(v: seq<int>, c: set<nat>, e: int): seq<int> {
    seq(|v|, j requires 0 <= j < |v| => if |v| + j in c then v[j] + e else v[j])
  }

  /** e is positive and no larger than the excess of any pair outside the cover c. */
  ghost predicate Step(g: Matrix, u: seq<int>, v: seq<int>, c: set<nat>, e: int)
    requires Square(g, |g|) && |u| == |g| && |v| == |g|
  {
    && 0 < e
    && forall i, j {:trigger g[i][j]} | 0 <= i < |g| && 0 <= j < |g| && i !in c && |g| + j !in c ::
         e <= u[i] + v[j] - g[i][j]
  }

  lemma AdjustedIsCover(g: Matrix, u: seq<int>, v: seq<int>, c: set<nat>, e: int)
    requires WeightedCover(g, u, v) && Step(g, u, v, c, e)
    ensures WeightedCover(g, LoweredLeft(u, c, e), RaisedRight(v, c, e))
  {}

  lemma LoweredSum(u: seq<int>, c: set<nat>, e: int)
    ensures Sum(LoweredLeft(u, c, e)) + |u| * e == Sum(u) + Sum(Indicator(|u|, c, e))
  {
    var es := seq(|u|, _ => e);
    SumConstant(es, e);
    var u' := LoweredLeft(u, c, e);
    var both := seq(|u|, i requires 0 <= i < |u| => u'[i] + es[i]);
    SumAdd(u', es, both);
    SumAdd(u, Indicator(|u|, c, e), both);
  }

  /** e at each right vertex in the cover, 0 at the others. */
  function RightMarks(k: nat, c: set<nat>, e: int): seq<int> {
    seq(k, j requires 0 <= j < k => if k + j in c then e else 0)
  }

  lemma RaisedSum(v: seq<int>, c: set<nat>, e: int)
    ensures Sum(RaisedRight(v, c, e)) == Sum(v) + Sum(RightMarks(|v|, c, e))
  {
    SumAdd(v, RightMarks(|v|, c, e), RaisedRight(v, c, e));
  }

  lemma MarksSum(k: nat, c: set<nat>, e: int)
    requires forall x | x in c :: x < 2 * k
    ensures Sum(Indicator(k, c, e)) + Sum(RightMarks(k, c, e)) == e * |c|
  {
    SumConcat(Indicator(k, c, e), RightMarks(k, c, e));
    assert Indicator(2 * k, c, e) == Indicator(k, c, e) + RightMarks(k, c, e);
    SumIndicator(2 * k, c, e);
    assert c == set x: nat | x < 2 * k && x in c;
  }

  /** The labels get cheaper by the step times the number of vertices that the cover
      falls short of k. */
  lemma AdjustedCost(g: Matrix, u: seq<int>, v: seq<int>, c: set<nat>, e: int)
    requires |u| == |g| && |v| == |g| && forall x | x in c :: x < 2 * |g|
    ensures Cost(LoweredLeft(u, c, e), RaisedRight(v, c, e)) == Cost(u, v) - e * (|g| - |c|)
  {
    LoweredSum(u, c, e);
    RaisedSum(v, c, e);
    MarksSum(|g|, c, e);
  }

  /** When the tight pairs have no perfect matching, labels adjusted by a step are
      strictly cheaper. */
  lemma AdjustedIsCheaper(g: Matrix, u: seq<int>, v: seq<int>, c: set<nat>, e: int)
    requires |u| == |g| && |v| == |g| && forall x | x in c :: x < 2 * |g|
    requires |c| < |g| && 0 < e
    ensures Cost(LoweredLeft(u, c, e), RaisedRight(v, c, e)) < Cost(u, v)
  {
    AdjustedCost(g, u, v, c, e);
    assert 0 < e * (|g| - |c|);
  }

  lemma MatchingIsPerfect(g: Matrix, u: seq<int>, v: seq<int>, t: Matrix, m: seq<Edge>)
    requires WeightedCover(g, u, v) && TightGraph(g, u, v, t)
    requires IsMatching(t, m) && |m| == |g|
    ensures IsMaximumWeight(g, m) && MatchingWeight(g, m) == Cost(u, v)
  {
    forall a | 0 <= a < |m|
      ensures m[a].0 < |g| && m[a].1 < |g| && u[m[a].0] + v[m[a].1] == g[m[a].0][m[a].1]
    {
      assert m[a] in m;
      assert t[m[a].0][m[a].1] != 0;
    }
    TightIsMaximum(g, u, v, m);
  }

  // ----------------------------------------------------------------- the methods

  method MaxElement(s: seq<int>) returns (max: int)
    requires s != []
    ensures max in s && forall x | x in s :: x <= max
  {
    max := s[0];
    for i := 1 to |s|
      invariant max in s && forall j | 0 <= j < i :: s[j] <= max
    {
      if max < s[i] {
        max := s[i];
      }
    }
  }

  method InitialLabels(graph: Matrix) returns (u: array<int>, v: array<int>)
    requires Square(graph, |graph|)
    ensures fresh(u) && fresh(v) && u != v
    ensures WeightedCover(graph, u[..], v[..])
    ensures forall i {:trigger u[i]} | 0 <= i < |graph| :: u[i] in graph[i] && v[i] == 0
  {
    var k := |graph|;
    u := new int[k](_ => 0);
    v := new int[k](_ => 0);
    for i := 0 to k
      invariant forall j | 0 <= j < k :: v[j] == 0
      invariant forall a, j {:trigger graph[a][j]} | 0 <= a < i && 0 <= j < k :: graph[a][j] <= u[a]
      invariant forall a {:trigger u[a]} | 0 <= a < i :: u[a] in graph[a]
    {
      var max := MaxElement(graph[i]);
      assert forall j | 0 <= j < k :: graph[i][j] in graph[i];
      u[i] := max;
    }
  }

  /** The pairs that the labels reach exactly, as a bipartite graph. */
  method ConstructMatchingGraph(graph: Matrix, u: array<int>, v: array<int>) returns (matchingGraph: Matrix)
    requires Square(graph, |graph|) && u.Length == |graph| && v.Length == |graph|
    ensures TightGraph(graph, u[..], v[..], matchingGraph)
  {
    var k := |graph|;
    matchingGraph := [];
    for i := 0 to k
      invariant |matchingGraph| == i
      invariant forall a | 0 <= a < i :: |matchingGraph[a]| == k
      invariant forall a, j {:trigger matchingGraph[a][j]} | 0 <= a < i && 0 <= j < k ::
                  matchingGraph[a][j] == if u[a] + v[j] == graph[a][j] then 1 else 0
    {
      var row: seq<int> := [];
      for j := 0 to k
        invariant |row| == j
        invariant forall b | 0 <= b < j :: row[b] == if u[i] + v[b] == graph[i][b] then 1 else 0
      {
        row := row + [if u[i] + v[j] == graph[i][j] then 1 else 0];
      }
      matchingGraph := matchingGraph + [row];
    }
  }

  /** The largest value of the weight type, a signed 32-bit integer. */
  const MAX_WEIGHT: int := 0x7fff_ffff

  /** The vertices of the cover, one flag per vertex of each side. */
  method MarkCover(cover: seq<nat>, k: nat) returns (left: array<bool>, right: array<bool>)
    requires forall x | x in cover :: x < 2 * k
    ensures fresh(left) && fresh(right) && left.Length == k && right.Length == k
    ensures forall i | 0 <= i < k :: left[i] <==> i in Elements(cover)
    ensures forall j {:trigger right[j]} | 0 <= j < k :: right[j] <==> k + j in Elements(cover)
  {
    left := new bool[k](_ => false);
    right := new bool[k](_ => false);
    for a := 0 to |cover|
      invariant forall i | 0 <= i < k :: left[i] <==> i in cover[..a]
      invariant forall j {:trigger right[j]} | 0 <= j < k :: right[j] <==> k + j in cover[..a]
    {
      assert cover[a] in cover && cover[..a + 1] == cover[..a] + [cover[a]];
      if cover[a] < k {
        left[cover[a]] := true;
      } else {
        right[cover[a] - k] := true;
      }
    }
    assert cover[..|cover|] == cover;
  }

  /** The least excess of all pairs outside the cover c, unless that is above the largest weight. */
  ghost predicate LeastExcess(g: Matrix, u: seq<int>, v: seq<int>, c: set<nat>, e: int)
    requires Square(g, |g|) && |u| == |v| == |g|
  {
    && Step(g, u, v, c, e) && e <= MAX_WEIGHT
    && (e < MAX_WEIGHT ==> exists i, j {:trigger g[i][j]} ::
          0 <= i < |g| && 0 <= j < |g| && i !in c && |g| + j !in c && e == u[i] + v[j] - g[i][j])
  }

  /** The least excess of all pairs outside the cover. */
  method MinExcess(graph: Matrix, u: array<int>, v: array<int>, left: array<bool>, right: array<bool>,
                   ghost t: Matrix, ghost c: set<nat>)
    returns (minExcess: int)
    requires u.Length == v.Length == left.Length == right.Length == |graph|
    requires WeightedCover(graph, u[..], v[..]) && TightGraph(graph, u[..], v[..], t) && IsCover(t, c)
    requires forall i | 0 <= i < |graph| :: left[i] <==> i in c
    requires forall j {:trigger right[j]} | 0 <= j < |graph| :: right[j] <==> |graph| + j in c
    ensures LeastExcess(graph, u[..], v[..], c, minExcess)
  {
    var k := |graph|;
    minExcess := MAX_WEIGHT;
    ghost var x, y := 0, 0;
    for i := 0 to k
      invariant 0 < minExcess <= MAX_WEIGHT
      invariant minExcess < MAX_WEIGHT ==> 0 <= x < k && 0 <= y < k && !left[x] && !right[y]
                                           && minExcess == u[x] + v[y] - graph[x][y]
      invariant forall a, b {:trigger graph[a][b]} | 0 <= a < i && 0 <= b < k && !left[a] && !right[b] ::
                  minExcess <= u[a] + v[b] - graph[a][b]
    {
      for j := 0 to k
        invariant 0 < minExcess <= MAX_WEIGHT
        invariant minExcess < MAX_WEIGHT ==> 0 <= x < k && 0 <= y < k && !left[x] && !right[y]
                                             && minExcess == u[x] + v[y] - graph[x][y]
        invariant forall a, b {:trigger graph[a][b]} | 0 <= a < i && 0 <= b < k && !left[a] && !right[b] ::
                    minExcess <= u[a] + v[b] - graph[a][b]
        invariant forall b {:trigger graph[i][b]} | 0 <= b < j && !left[i] && !right[b] ::
                    minExcess <= u[i] + v[b] - graph[i][b]
      {
        if !left[i] && !right[j] {
          assert t[i][j] == 0;
          var excess := u[i] + v[j] - graph[i][j];
          if excess < minExcess {
            minExcess := excess;
            x, y := i, j;
          }
        }
      }
    }
  }

  /** Lowers the left labels outside the cover and raises the right labels inside it. */
  method AdjustLabels(u: array<int>, v: array<int>, left: array<bool>, right: array<bool>, minExcess: int,
                      ghost c: set<nat>)
    requires u != v && u.Length == v.Length == left.Length == right.Length
    requires forall i | 0 <= i < u.Length :: left[i] <==> i in c
    requires forall j {:trigger right[j]} | 0 <= j < u.Length :: right[j] <==> u.Length + j in c
    modifies u, v
    ensures u[..] == LoweredLeft(old(u[..]), c, minExcess)
    ensures v[..] == RaisedRight(old(v[..]), c, minExcess)
  {
    var k := u.Length;
    for i := 0 to k
      invariant forall a | 0 <= a < k :: u[a] == if a < i && !left[a] then old(u[a]) - minExcess else old(u[a])
      invariant forall a | 0 <= a < k :: v[a] == if a < i && right[a] then old(v[a]) + minExcess else old(v[a])
    {
      if !left[i] {
        u[i] := u[i] - minExcess;
      }
      if right[i] {
        v[i] := v[i] + minExcess;
      }
    }
  }

  /** The labels for the next round, given a minimum cover of the tight pairs that is
      too small for a perfect matching. */
  method Relabel(graph: Matrix, u: array<int>, v: array<int>, cover: seq<nat>, ghost t: Matrix) returns (minExcess: int)
    requires u != v && u.Length == |graph| && v.Length == |graph|
    requires WeightedCover(graph, u[..], v[..]) && TightGraph(graph, u[..], v[..], t)
    requires IsCover(t, Elements(cover)) && |Elements(cover)| < |graph|
    requires forall x | x in cover :: x < 2 * |graph|
    modifies u, v
    ensures WeightedCover(graph, u[..], v[..])
    ensures LeastExcess(graph, old(u[..]), old(v[..]), Elements(cover), minExcess)
    ensures u[..] == LoweredLeft(old(u[..]), Elements(cover), minExcess)
    ensures v[..] == RaisedRight(old(v[..]), Elements(cover), minExcess)
    ensures Cost(u[..], v[..]) == old(Cost(u[..], v[..])) - minExcess * (|graph| - |Elements(cover)|)
    ensures Cost(u[..], v[..]) < old(Cost(u[..], v[..]))
  {
    ghost var c := Elements(cover);
    var left, right := MarkCover(cover, |graph|);
    minExcess := MinExcess(graph, u, v, left, right, t, c);
    AdjustedIsCover(graph, u[..], v[..], c, minExcess);
    AdjustedCost(graph, u[..], v[..], c, minExcess);
    AdjustedIsCheaper(graph, u[..], v[..], c, minExcess);
    AdjustLabels(u, v, left, right, minExcess, c);
  }

  /** The Hungarian method: matches tight pairs only, and adjusts the labels until the
      tight pairs admit a perfect matching. */
  method FindMaximumWeightedBipartiteMatching(graph: Matrix) returns (matching: seq<Edge>)
    requires Square(graph, |graph|)
    ensures IsMaximumWeight(graph, matching)
  {
    var k := |graph|;
    var u, v := InitialLabels(graph);
    while true
      invariant u.Length == k && v.Length == k && u != v && fresh(u) && fresh(v)
      invariant WeightedCover(graph, u[..], v[..])
      decreases Cost(u[..], v[..]) - DiagonalWeight(graph)
    {
      CostBounded(graph, u[..], v[..]);
      var matchingGraph := ConstructMatchingGraph(graph, u, v);
      var vertexCover := new MinimumBipartiteVertexCover(matchingGraph);
      matching := vertexCover.ComputeMaximumBipartiteMatching();
      if |matching| == k {
        MatchingIsPerfect(graph, u[..], v[..], matchingGraph, matching);
        break;
      }
      var cover := vertexCover.FindMinimumBipartiteVertexCover();
      CoverTooSmall(matchingGraph, matching, cover);
      var minExcess := Relabel(graph, u, v, cover, matchingGraph);
    }
  }

  /** A maximum matching that is not perfect has a cover of fewer than k vertices. */
  lemma CoverTooSmall(t: Matrix, m: seq<Edge>, cover: seq<nat>)
    requires Square(t, |t|) && IsMatching(t, m) && |m| != |t| && |cover| == |m|
    ensures |Elements(cover)| < |t|
  {
    DistinctSize(Lefts(m));
    forall a | 0 <= a < |m| ensures m[a].0 < |t| {
      assert m[a] in m;
    }
    BoundedSetSize(Elements(Lefts(m)), |t|);
    ElementsBound(cover);
  }
}
