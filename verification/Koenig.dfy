/** Matchings and vertex covers of a bipartite graph, how the residual graph of a flow
    encodes a matching, and Koenig's construction of a cover of the same size. */
module Koenig {
  import opened Sums
  import opened FlowNetwork
  import opened BreadthFirstSearch

  type Edge = (nat, nat)

  /** m is a set of edges of g, listed without repetition, no two of which share a vertex. */
  ghost predicate IsMatching(g: Matrix, m: seq<Edge>)
    requires Square(g, |g|)
  {
    && (forall e | e in m :: e.0 < |g| && e.1 < |g| && g[e.0][e.1] != 0)
    && (forall a, b | 0 <= a < b < |m| :: m[a].0 != m[b].0 && m[a].1 != m[b].1)
  }

  /** c contains an end of every edge: i for left vertex i, |g| + j for right vertex j. */
  ghost predicate IsCover(g: Matrix, c: set<nat>)
    requires Square(g, |g|)
  {
    forall i, j | 0 <= i < |g| && 0 <= j < |g| && g[i][j] != 0 :: i in c || |g| + j in c
  }

  lemma SharedEnd(g: Matrix, m: seq<Edge>, e: Edge, e': Edge)
    requires Square(g, |g|) && IsMatching(g, m) && e in m && e' in m
    requires e.0 == e'.0 || e.1 == e'.1
    ensures e == e'
  {
    var a :| 0 <= a < |m| && m[a] == e;
    var b :| 0 <= b < |m| && m[b] == e';
    assert a == b;
  }

  /** No matching is larger than a vertex cover. */
  lemma MatchingBelowCover(g: Matrix, m: seq<Edge>, c: set<nat>)
    requires Square(g, |g|) && IsMatching(g, m) && IsCover(g, c)
    ensures |m| <= |c|
  {
    DistinctSize(m);
    var edges := Elements(m);
    var end := (e: Edge) => if e.0 in c then e.0 else |g| + e.1;
    forall e, e' | e in edges && e' in edges && end(e) == end(e') ensures e == e' {
      SharedEnd(g, m, e, e');
    }
    InjectionBound(edges, c, end);
  }

  // ------------------------------------------- the matching of a residual graph

  /** Left vertex i and right vertex j are matched: the flow uses the arc between them. */
  ghost predicate Matched(g: Matrix, r: Matrix, i: nat, j: nat)
    requires Square(g, |g|) && Square(r, 2 * |g| + 2)
  {
    i < |g| && j < |g| && r[|g| + j][i] != 0
  }

  /** The flow into left vertex i's partners, right vertex by right vertex. */
  function PartnersOf(g: Matrix, r: Matrix, i: nat): seq<int>
    requires |r| == 2 * |g| + 2 && i < |g|
    requires forall x | 0 <= x < |r| :: |r[x]| == |r|
  {
    seq(|g|, j requires 0 <= j < |g| => r[|g| + j][i])
  }

  lemma MatchedIsEdge(g: Matrix, r: Matrix, i: nat, j: nat)
    requires Residual(g, r) && Matched(g, r, i, j)
    ensures g[i][j] != 0 && r[|g| + j][i] == 1 && r[i][|g| + j] == 0
  {
    var k := |g|;
    assert r[i][k + j] + r[k + j][i] == Capacity(g, i, k + j) + Capacity(g, k + j, i);
    assert Capacity(g, k + j, i) == 0;
  }

  lemma {:induction false} SplitRow(s: seq<int>, k: nat)
    requires |s| == 2 * k + 2
    ensures Sum(s) == Sum(s[..k]) + Sum(s[k..2 * k]) + s[2 * k] + s[2 * k + 1]
  {
    assert s == ((s[..k] + s[k..2 * k]) + [s[2 * k]]) + [s[2 * k + 1]];
    SumConcat(s[..k], s[k..2 * k]);
    SumSnoc(s[..k] + s[k..2 * k], s[2 * k]);
    SumSnoc(s[..k] + s[k..2 * k] + [s[2 * k]], s[2 * k + 1]);
  }

  /** A left vertex has as many partners as units of flow enter it. */
  lemma LeftDegree(g: Matrix, r: Matrix, i: nat)
    requires Residual(g, r) && Conserving(g, r) && i < |g|
    ensures Sum(PartnersOf(g, r, i)) == 1 - r[Source(|g|)][i]
  {
    var k := |g|;
    var row, cap := r[i], CapacityRow(g, i);
    SplitRow(row, k);
    SplitRow(cap, k);
    assert forall b | 0 <= b < |r| :: r[i][b] + r[b][i] == Capacity(g, i, b) + Capacity(g, b, i);
    SumConstant(row[..k], 0);
    SumConstant(cap[..k], 0);
    SumAdd(row[k..2 * k], PartnersOf(g, r, i), cap[k..2 * k]);
    assert row[2 * k + 1] == 0 && row[2 * k] + r[2 * k][i] == 1;
  }

  /** Out of a right vertex only arcs back to its partners and to the sink are left. */
  lemma RightRow(g: Matrix, r: Matrix, x: nat)
    requires Residual(g, r) && |g| <= x < 2 * |g|
    ensures forall b | |g| <= b <= 2 * |g| :: r[x][b] == 0
  {
    forall b | |g| <= b <= 2 * |g| ensures r[x][b] == 0 {
      assert r[x][b] + r[b][x] == Capacity(g, x, b) + Capacity(g, b, x);
    }
  }

  /** A right vertex has as many partners as units of flow leave it. */
  lemma RightDegree(g: Matrix, r: Matrix, j: nat)
    requires Residual(g, r) && Conserving(g, r) && j < |g|
    ensures Sum(r[|g| + j][..|g|]) == 1 - r[|g| + j][Sink(|g|)]
  {
    var k := |g|;
    var x := k + j;
    var row, cap := r[x], CapacityRow(g, x);
    SplitRow(row, k);
    SplitRow(cap, k);
    RightRow(g, r, x);
    SumConstant(cap[..k], 0);
    SumConstant(cap[k..2 * k], 0);
    SumConstant(row[k..2 * k], 0);
    assert Sum(row) == Sum(cap);
  }

  /** A vertex has at most one partner. */
  lemma PartnerUnique(g: Matrix, r: Matrix, i: nat, j: nat, i': nat, j': nat)
    requires Residual(g, r) && Conserving(g, r)
    requires Matched(g, r, i, j) && Matched(g, r, i', j')
    ensures i == i' <==> j == j'
  {
    var k := |g|;
    assert 0 <= r[Source(k)][i] && 0 <= r[k + j][Sink(k)];
    if i == i' && j != j' {
      LeftDegree(g, r, i);
      SumAtLeastTwo(PartnersOf(g, r, i), j, j');
    } else if i != i' && j == j' {
      RightDegree(g, r, j);
      SumAtLeastTwo(r[k + j][..k], i, i');
    }
  }

  lemma LeftPartner(g: Matrix, r: Matrix, i: nat) returns (j: nat)
    requires Residual(g, r) && Conserving(g, r) && i < |g| && r[Source(|g|)][i] == 0
    ensures Matched(g, r, i, j)
  {
    LeftDegree(g, r, i);
    j := PositiveSummand(PartnersOf(g, r, i));
  }

  lemma RightPartner(g: Matrix, r: Matrix, j: nat) returns (i: nat)
    requires Residual(g, r) && Conserving(g, r) && j < |g| && r[|g| + j][Sink(|g|)] == 0
    ensures Matched(g, r, i, j)
  {
    RightDegree(g, r, j);
    i := PositiveSummand(r[|g| + j][..|g|]);
  }

  /** A matched left vertex gets its flow from the source. */
  lemma MatchedLeftSaturated(g: Matrix, r: Matrix, i: nat, j: nat)
    requires Residual(g, r) && Conserving(g, r) && Matched(g, r, i, j)
    ensures r[Source(|g|)][i] == 0
  {
    LeftDegree(g, r, i);
    SumAtLeastOne(PartnersOf(g, r, i), j);
    assert 0 <= r[Source(|g|)][i];
  }

  /** m lists exactly the matched pairs. */
  ghost predicate ReadBack(g: Matrix, r: Matrix, m: seq<Edge>)
    requires Square(g, |g|) && Square(r, 2 * |g| + 2)
  {
    && (forall e | e in m :: Matched(g, r, e.0, e.1))
    && (forall i: nat, j: nat | Matched(g, r, i, j) :: (i, j) in m)
    && (forall a, b | 0 <= a < b < |m| :: m[a] != m[b])
  }

  /** m lists exactly the matched pairs that precede (i, j) in row-major order. */
  ghost predicate ReadUpTo(g: Matrix, r: Matrix, m: seq<Edge>, i: nat, j: nat)
    requires Square(g, |g|) && Square(r, 2 * |g| + 2)
  {
    && (forall e | e in m :: Matched(g, r, e.0, e.1) && (e.0 < i || (e.0 == i && e.1 < j)))
    && (forall i': nat, j': nat | Matched(g, r, i', j') && (i' < i || (i' == i && j' < j)) :: (i', j') in m)
    && (forall a, b | 0 <= a < b < |m| :: m[a] != m[b])
  }

  lemma ReadSkip(g: Matrix, r: Matrix, m: seq<Edge>, i: nat, j: nat)
    requires Square(g, |g|) && Square(r, 2 * |g| + 2)
    requires ReadUpTo(g, r, m, i, j) && !Matched(g, r, i, j)
    ensures ReadUpTo(g, r, m, i, j + 1)
  {}

  lemma ReadAdd(g: Matrix, r: Matrix, m: seq<Edge>, i: nat, j: nat)
    requires Square(g, |g|) && Square(r, 2 * |g| + 2)
    requires ReadUpTo(g, r, m, i, j) && Matched(g, r, i, j)
    ensures ReadUpTo(g, r, m + [(i, j)], i, j + 1)
  {
    var m' := m + [(i, j)];
    forall a, b | 0 <= a < b < |m'| ensures m'[a] != m'[b] {
      assert m'[a] in m;
    }
    forall i': nat, j': nat | Matched(g, r, i', j') && (i' < i || (i' == i && j' < j + 1)) ensures (i', j') in m' {
      if i' == i && j' == j {
        assert m'[|m|] == (i', j');
      } else {
        assert (i', j') in m;
      }
    }
  }

  /** For each left vertex, the flow through it. */
  function Degrees(g: Matrix, r: Matrix): seq<int>
    requires |r| == 2 * |g| + 2 && forall x | 0 <= x < |r| :: |r[x]| == |r|
  {
    seq(|g|, i requires 0 <= i < |g| => Sum(PartnersOf(g, r, i)))
  }

  /** The matched pairs are as many as the flow has units. */
  lemma DegreesSum(g: Matrix, r: Matrix, value: int)
    requires FlowOf(g, r, value)
    ensures Sum(Degrees(g, r)) == value
  {
    var k := |g|;
    var row := r[Source(k)];
    SplitRow(row, k);
    forall b | k <= b < |r| ensures row[b] == 0 {
      assert r[2 * k][b] + r[b][2 * k] == Capacity(g, 2 * k, b) + Capacity(g, b, 2 * k);
    }
    SumConstant(row[k..2 * k], 0);
    var ones := seq(k, _ => 1);
    SumConstant(ones, 1);
    forall i | 0 <= i < k ensures Degrees(g, r)[i] == 1 - row[i] {
      LeftDegree(g, r, i);
    }
    SumAdd(Degrees(g, r), row[..k], ones);
  }

  lemma ReadBackIsMatching(g: Matrix, r: Matrix, m: seq<Edge>)
    requires Residual(g, r) && Conserving(g, r) && ReadBack(g, r, m)
    ensures IsMatching(g, m)
  {
    forall e | e in m ensures e.0 < |g| && e.1 < |g| && g[e.0][e.1] != 0 {
      MatchedIsEdge(g, r, e.0, e.1);
    }
    forall a, b | 0 <= a < b < |m| ensures m[a].0 != m[b].0 && m[a].1 != m[b].1 {
      assert m[a] in m && m[b] in m;
      PartnerUnique(g, r, m[a].0, m[a].1, m[b].0, m[b].1);
    }
  }

  // ------------------------------------------------------------------- covers

  /** The arcs between source and left side and between right side and sink, in both
      directions, for the first bound vertices of each side. */
  predicate OuterArc(k: nat, a: nat, b: nat, bound: nat) {
    || (a == Source(k) && b < bound)
    || (b == Source(k) && a < bound)
    || (k <= a < k + bound && b == Sink(k))
    || (a == Sink(k) && k <= b < k + bound)
  }

  /** s is the residual graph r without the outer arcs. */
  ghost predicate Stripped(k: nat, r: Matrix, s: Matrix) {
    && Square(r, 2 * k + 2) && Square(s, 2 * k + 2)
    && forall a, b | 0 <= a < |r| && 0 <= b < |r| :: s[a][b] == if OuterArc(k, a, b, k) then 0 else r[a][b]
  }

  /** Nothing leads to the sink any more, and nothing that is left touches the source. */
  lemma StrippedOuter(g: Matrix, r: Matrix, s: Matrix, a: nat, b: nat)
    requires Residual(g, r) && Stripped(|g|, r, s) && a < |r| && b < |r|
    requires a >= 2 * |g| || b >= 2 * |g|
    ensures s[a][b] == 0
  {
    assert r[a][b] + r[b][a] == Capacity(g, a, b) + Capacity(g, b, a);
  }

  lemma AlternatingIsClosed(g: Matrix, r: Matrix, s: Matrix, c: set<nat>)
    requires Residual(g, r) && Stripped(|g|, r, s) && Alternating(g, r, c)
    ensures Closed(s, c)
  {
    var k := |g|;
    forall a: nat, b: nat | a in c && a < |s| && b < |s| && s[a][b] != 0 ensures b in c {
      if a >= 2 * k || b >= 2 * k {
        StrippedOuter(g, r, s, a, b);
      } else if a >= k {
        RightRow(g, r, a);
        var j: nat := a - k;
        assert Matched(g, r, b, j);
      } else {
        assert r[a][b] + r[b][a] == Capacity(g, a, b) + Capacity(g, b, a);
      }
    }
  }

  /** What makes a set of nodes yield a cover: it contains every unmatched left vertex,
      is closed under alternating steps, contains no unmatched right vertex, and of its
      matched left vertices contains the partner as well. */
  ghost predicate Alternating(g: Matrix, r: Matrix, h: set<nat>)
    requires Square(g, |g|) && Square(r, 2 * |g| + 2)
  {
    var k := |g|;
    && (forall i | 0 <= i < k && r[Source(k)][i] != 0 :: i in h)
    && (forall i, x | 0 <= i < k <= x < 2 * k && i in h && r[i][x] != 0 :: x in h)
    && (forall i: nat, j: nat | Matched(g, r, i, j) && k + j in h :: i in h)
    && (forall x | k <= x < 2 * k && x in h :: r[x][Sink(k)] == 0)
    && (forall i: nat, j: nat | Matched(g, r, i, j) && i in h :: k + j in h)
  }

  /** The only residual arc into a matched left vertex comes from its partner. */
  lemma OnlyPartnerLeadsBack(g: Matrix, r: Matrix, i: nat, j: nat, x: nat)
    requires Residual(g, r) && Conserving(g, r) && Matched(g, r, i, j)
    requires x < |r| && r[x][i] != 0
    ensures x == |g| + j
  {
    var k := |g|;
    MatchedLeftSaturated(g, r, i, j);
    assert r[x][i] + r[i][x] == Capacity(g, x, i) + Capacity(g, i, x);
    assert k <= x < 2 * k;
    PartnerUnique(g, r, i, j, i, x - k);
  }

  /** What the searches from unmatched left vertices in the stripped graph s have found
      so far: a closed part of the cut c that contains partners with its vertices. */
  ghost predicate PartOfCut(g: Matrix, r: Matrix, s: Matrix, c: set<nat>, h: set<nat>)
    requires Square(g, |g|) && Square(r, 2 * |g| + 2)
  {
    && Closed(s, h)
    && h <= c
    && (forall i: nat, j: nat | Matched(g, r, i, j) && i in h :: |g| + j in h)
  }

  /** Once all unmatched left vertices have been found the part is as good as the cut. */
  lemma PartIsAlternating(g: Matrix, r: Matrix, s: Matrix, c: set<nat>, h: set<nat>)
    requires Residual(g, r) && Stripped(|g|, r, s) && Alternating(g, r, c) && PartOfCut(g, r, s, c, h)
    requires forall i | 0 <= i < |g| && r[Source(|g|)][i] != 0 :: i in h
    ensures Alternating(g, r, h)
  {
    var k := |g|;
    forall i, x | 0 <= i < k <= x < 2 * k && i in h && r[i][x] != 0 ensures x in h {
      assert s[i][x] != 0;
    }
    forall i: nat, j: nat | Matched(g, r, i, j) && k + j in h ensures i in h {
      assert s[k + j][i] != 0;
    }
  }

  /** (L \ H) united with (R n H). */
  ghost function CoverOf(k: nat, h: set<nat>): set<nat> {
    (set i: nat | i < k && i !in h) + (set x: nat | k <= x < 2 * k && x in h)
  }

  lemma CoverCovers(g: Matrix, r: Matrix, h: set<nat>)
    requires Residual(g, r) && Alternating(g, r, h)
    ensures IsCover(g, CoverOf(|g|, h))
  {
    var k := |g|;
    forall i, j | 0 <= i < k && 0 <= j < k && g[i][j] != 0
      ensures i in CoverOf(k, h) || k + j in CoverOf(k, h)
    {
      if i in h && k + j !in h {
        assert r[i][k + j] + r[k + j][i] == Capacity(g, i, k + j) + Capacity(g, k + j, i);
        assert Matched(g, r, i, j);
      }
    }
  }

  /** cover lists the vertices of the cover below u, in ascending order. */
  ghost predicate Collected(k: nat, visited: seq<bool>, cover: seq<nat>, u: nat) {
    && |visited| == 2 * k + 2
    && (forall x | x in cover :: x < u)
    && (forall x | 0 <= x < u && x < |visited| :: x in cover <==> visited[x] == (x >= k))
    && (forall a, b | 0 <= a < b < |cover| :: cover[a] < cover[b])
  }

  lemma CollectStep(k: nat, visited: seq<bool>, cover: seq<nat>, u: nat)
    requires Collected(k, visited, cover, u) && u < |visited|
    ensures Collected(k, visited, if visited[u] == (u >= k) then cover + [u] else cover, u + 1)
  {
    forall a | 0 <= a < |cover| ensures cover[a] < u {
      assert cover[a] in cover;
    }
  }

  lemma CollectedAll(k: nat, visited: seq<bool>, cover: seq<nat>, h: set<nat>)
    requires Collected(k, visited, cover, 2 * k)
    requires forall x: nat :: x in h <==> x < |visited| && visited[x]
    ensures Elements(cover) == CoverOf(k, h) && |cover| == |CoverOf(k, h)|
  {
    assert Elements(cover) == CoverOf(k, h);
    DistinctSize(cover);
  }

  /** An edge of the matching at a vertex of the cover. */
  ghost function CoverEdge(g: Matrix, r: Matrix, x: nat): Edge
    requires Square(g, |g|) && Square(r, 2 * |g| + 2)
  {
    var k := |g|;
    if x < k then
      if j: nat :| Matched(g, r, x, j) then (x, j) else (0, 0)
    else
      var j := x - k;
      if i: nat :| Matched(g, r, i, j) then (i, j) else (0, 0)
  }

  lemma CoverEdgeExists(g: Matrix, r: Matrix, h: set<nat>, x: nat)
    requires Residual(g, r) && Conserving(g, r) && Alternating(g, r, h)
    requires x in CoverOf(|g|, h)
    ensures Matched(g, r, CoverEdge(g, r, x).0, CoverEdge(g, r, x).1)
    ensures if x < |g| then CoverEdge(g, r, x).0 == x else |g| + CoverEdge(g, r, x).1 == x
  {
    if x < |g| {
      assert r[Source(|g|)][x] == 0 by {
        assert 0 <= r[Source(|g|)][x];
      }
      var j := LeftPartner(g, r, x);
    } else {
      var i := RightPartner(g, r, x - |g|);
    }
  }

  /** No matching edge has both ends in the cover. */
  lemma CoverEdgeInjective(g: Matrix, r: Matrix, h: set<nat>, x: nat, y: nat)
    requires Residual(g, r) && Conserving(g, r) && Alternating(g, r, h)
    requires x in CoverOf(|g|, h) && y in CoverOf(|g|, h)
    requires CoverEdge(g, r, x) == CoverEdge(g, r, y)
    ensures x == y
  {
    CoverEdgeExists(g, r, h, x);
    CoverEdgeExists(g, r, h, y);
    var (i, j) := CoverEdge(g, r, x);
    assert i in h <==> |g| + j in h;
  }

  lemma CoverNotLarger(g: Matrix, r: Matrix, m: seq<Edge>, h: set<nat>)
    requires Residual(g, r) && Conserving(g, r) && ReadBack(g, r, m) && Alternating(g, r, h)
    ensures |CoverOf(|g|, h)| <= |Elements(m)|
  {
    var edges := Elements(m);
    var at := x => CoverEdge(g, r, x);
    forall x | x in CoverOf(|g|, h) ensures at(x) in edges {
      CoverEdgeExists(g, r, h, x);
    }
    forall x, y | x in CoverOf(|g|, h) && y in CoverOf(|g|, h) && at(x) == at(y) ensures x == y {
      CoverEdgeInjective(g, r, h, x, y);
    }
    InjectionBound(CoverOf(|g|, h), edges, at);
  }

  /** Koenig: the cover is as large as the matching, so neither can be improved. */
  lemma CoverSize(g: Matrix, r: Matrix, m: seq<Edge>, h: set<nat>)
    requires Residual(g, r) && Conserving(g, r) && ReadBack(g, r, m) && Alternating(g, r, h)
    ensures |CoverOf(|g|, h)| == |m|
  {
    CoverCovers(g, r, h);
    ReadBackIsMatching(g, r, m);
    MatchingBelowCover(g, m, CoverOf(|g|, h));
    DistinctSize(m);
    CoverNotLarger(g, r, m, h);
  }

  ghost predicate MaximumMatching(g: Matrix, m: seq<Edge>)
    requires Square(g, |g|)
  {
    IsMatching(g, m) && forall m' | IsMatching(g, m') :: |m'| <= |m|
  }

  ghost predicate MinimumCover(g: Matrix, c: set<nat>)
    requires Square(g, |g|)
  {
    IsCover(g, c) && forall c' | IsCover(g, c') :: |c| <= |c'|
  }

  lemma KoenigTheorem(g: Matrix, r: Matrix, m: seq<Edge>, h: set<nat>)
    requires Residual(g, r) && Conserving(g, r) && ReadBack(g, r, m) && Alternating(g, r, h)
    ensures MaximumMatching(g, m) && MinimumCover(g, CoverOf(|g|, h))
    ensures |CoverOf(|g|, h)| == |m|
  {
    CoverCovers(g, r, h);
    CoverSize(g, r, m, h);
    ReadBackIsMatching(g, r, m);
    forall m' | IsMatching(g, m') ensures |m'| <= |m| {
      MatchingBelowCover(g, m', CoverOf(|g|, h));
    }
    forall c' | IsCover(g, c') ensures |CoverOf(|g|, h)| <= |c'| {
      MatchingBelowCover(g, m, c');
    }
  }
}
