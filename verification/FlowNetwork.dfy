/** The unit-capacity network of a bipartite graph with k vertices on each side, its
    residual graphs, and augmentation along a path.

    Left vertex i is node i, right vertex j is node k + j, the source is node 2k and
    the sink is node 2k + 1. */
module FlowNetwork {
  import opened Sums

  type Matrix = seq<seq<int>>

  ghost predicate Square(m: Matrix, n: nat) {
    |m| == n && forall a | 0 <= a < n :: |m[a]| == n
  }

  function Source(k: nat): nat { 2 * k }

  function Sink(k: nat): nat { 2 * k + 1 }

  /** The capacity of the arc (a, b) in the network of the bipartite graph g. */
  function Capacity(g: Matrix, a: nat, b: nat): (c: int)
    requires forall i | 0 <= i < |g| :: |g[i]| == |g|
    requires a < 2 * |g| + 2 && b < 2 * |g| + 2
    ensures 0 <= c <= 1
  {
    var k := |g|;
    if a < k && k <= b < 2 * k then if g[a][b - k] != 0 then 1 else 0
    else if a == 2 * k && b < k then 1
    else if k <= a < 2 * k && b == 2 * k + 1 then 1
    else 0
  }

  function CapacityRow(g: Matrix, a: nat): seq<int>
    requires forall i | 0 <= i < |g| :: |g[i]| == |g|
    requires a < 2 * |g| + 2
  {
    seq(2 * |g| + 2, b requires 0 <= b < 2 * |g| + 2 => Capacity(g, a, b))
  }

  /** r is a residual graph of the network of g: residual capacities are not negative,
      and those of an arc and of its reversal sum to the capacities of the two. */
  ghost predicate Residual(g: Matrix, r: Matrix) {
    && Square(g, |g|)
    && Square(r, 2 * |g| + 2)
    && (forall a, b | 0 <= a < |r| && 0 <= b < |r| :: 0 <= r[a][b])
    && (forall a, b {:trigger Capacity(g, a, b)} | 0 <= a < |r| && 0 <= b < |r| ::
          r[a][b] + r[b][a] == Capacity(g, a, b) + Capacity(g, b, a))
  }

  /** What leaves an inner node enters it: equivalently, the residual capacity out of
      the node is its capacity. */
  ghost predicate Conserving(g: Matrix, r: Matrix)
    requires Residual(g, r)
  {
    forall x {:trigger CapacityRow(g, x)} | 0 <= x < 2 * |g| :: Sum(r[x]) == Sum(CapacityRow(g, x))
  }

  /** r is the residual graph of a flow of the given value. */
  ghost predicate FlowOf(g: Matrix, r: Matrix, value: int) {
    Residual(g, r) && Conserving(g, r) && Sum(r[Source(|g|)]) == |g| - value
  }

  lemma ResidualIsUnit(g: Matrix, r: Matrix, a: nat, b: nat)
    requires Residual(g, r) && a < |r| && b < |r|
    ensures 0 <= r[a][b] <= 1
  {
    assert r[a][b] + r[b][a] == Capacity(g, a, b) + Capacity(g, b, a);
  }

  /** Before any augmentation the residual graph is the network itself. */
  lemma NetworkIsZeroFlow(g: Matrix, r: Matrix)
    requires Square(g, |g|) && Square(r, 2 * |g| + 2)
    requires forall a, b | 0 <= a < |r| && 0 <= b < |r| :: r[a][b] == Capacity(g, a, b)
    ensures FlowOf(g, r, 0)
  {
    forall x | 0 <= x < |r| ensures r[x] == CapacityRow(g, x) {}
    var s := r[Source(|g|)];
    var k := |g|;
    assert s == s[..k] + s[k..];
    SumConcat(s[..k], s[k..]);
    SumConstant(s[..k], 1);
    SumConstant(s[k..], 0);
  }

  lemma SourceRowSum(g: Matrix, r: Matrix)
    requires Residual(g, r)
    ensures 0 <= Sum(r[Source(|g|)])
  {
    var s := r[Source(|g|)];
    var zeros := seq(|s|, _ => 0);
    SumConstant(zeros, 0);
    SumMonotone(zeros, s);
  }

  // ---------------------------------------------------------------- augmentation

  /** p visits distinct nodes along arcs with residual capacity. */
  ghost predicate Path(r: Matrix, p: seq<nat>) {
    && Square(r, |r|)
    && p != []
    && (forall i | 0 <= i < |p| :: p[i] < |r|)
    && (forall i, j | 0 <= i < j < |p| :: p[i] != p[j])
    && (forall i | 0 < i < |p| :: r[p[i - 1]][p[i]] != 0)
  }

  /** Sends m units over the arc (a, b). */
  function Push(r: Matrix, a: nat, b: nat, m: int): (r': Matrix)
    requires a < |r| && b < |r| && a != b
    requires forall x | 0 <= x < |r| :: |r[x]| == |r|
    ensures |r'| == |r| && forall x | 0 <= x < |r'| :: |r'[x]| == |r'|
  {
    r[a := r[a][b := r[a][b] - m]][b := r[b][a := r[b][a] + m]]
  }

  /** Sends m units along p, first arc first. */
  function Augmented(r: Matrix, p: seq<nat>, m: int): (r': Matrix)
    requires forall x | 0 <= x < |r| :: |r[x]| == |r|
    requires forall i | 0 <= i < |p| :: p[i] < |r|
    requires forall i, j | 0 <= i < j < |p| :: p[i] != p[j]
    ensures |r'| == |r| && forall x | 0 <= x < |r'| :: |r'[x]| == |r'|
  {
    if |p| <= 1 then r
    else
      var q := p[..|p| - 1];
      Push(Augmented(r, q, m), q[|q| - 1], p[|p| - 1], m)
  }

  /** The least residual capacity on p, but at most flow. */
  function Bottleneck(r: Matrix, p: seq<nat>, flow: int): int
    requires forall x | 0 <= x < |r| :: |r[x]| == |r|
    requires p != [] && forall i | 0 <= i < |p| :: p[i] < |r|
  {
    if |p| == 1 then flow
    else
      var q := p[..|p| - 1];
      var c := r[q[|q| - 1]][p[|p| - 1]];
      Bottleneck(r, q, if c < flow then c else flow)
  }

  lemma {:induction false} UnitBottleneck(g: Matrix, r: Matrix, p: seq<nat>, flow: int)
    requires Residual(g, r) && Path(r, p)
    requires 1 <= flow
    requires flow == 1 || 2 <= |p|
    ensures Bottleneck(r, p, flow) == 1
  {
    if |p| > 1 {
      var q := p[..|p| - 1];
      var a, b := q[|q| - 1], p[|p| - 1];
      ResidualIsUnit(g, r, a, b);
      assert r[p[|p| - 2]][p[|p| - 1]] != 0;
      assert a == p[|p| - 2];
      UnitBottleneck(g, r, q, 1);
    }
  }

  /** Augmentation leaves every entry alone that concerns a node off the path. */
  lemma {:induction false} AugmentedElsewhere(r: Matrix, p: seq<nat>, m: int, a: nat, b: nat)
    requires Square(r, |r|)
    requires forall i | 0 <= i < |p| :: p[i] < |r|
    requires forall i, j | 0 <= i < j < |p| :: p[i] != p[j]
    requires a < |r| && b < |r|
    requires a !in p || b !in p
    ensures Augmented(r, p, m)[a][b] == r[a][b]
  {
    if |p| > 1 {
      AugmentedElsewhere(r, p[..|p| - 1], m, a, b);
    }
  }

  lemma PushRowSums(r: Matrix, a: nat, b: nat, m: int, x: nat)
    requires Square(r, |r|) && a < |r| && b < |r| && a != b && x < |r|
    ensures Sum(Push(r, a, b, m)[x]) == Sum(r[x]) - (if x == a then m else 0) + (if x == b then m else 0)
  {
    SumUpdate(r[a], b, r[a][b] - m);
    SumUpdate(r[b], a, r[b][a] + m);
  }

  /** Only the two ends of the path change the total residual capacity out of a node. */
  lemma {:induction false} AugmentedRowSums(r: Matrix, p: seq<nat>, m: int, x: nat)
    requires Path(r, p) && x < |r|
    ensures Sum(Augmented(r, p, m)[x])
         == Sum(r[x]) - (if x == p[0] then m else 0) + (if x == p[|p| - 1] then m else 0)
  {
    if |p| > 1 {
      var q := p[..|p| - 1];
      AugmentedRowSums(r, q, m, x);
      PushRowSums(Augmented(r, q, m), q[|q| - 1], p[|p| - 1], m, x);
    }
  }

  lemma PushKeepsResidual(g: Matrix, r: Matrix, a: nat, b: nat)
    requires Residual(g, r) && a < |r| && b < |r| && a != b && r[a][b] != 0
    ensures Residual(g, Push(r, a, b, 1))
  {
    var r' := Push(r, a, b, 1);
    forall x, y | 0 <= x < |r'| && 0 <= y < |r'|
      ensures r'[x][y] + r'[y][x] == r[x][y] + r[y][x]
    {
      if x == a && y == b {
      } else if x == b && y == a {
      } else {
        assert r'[x][y] == r[x][y];
      }
    }
    assert forall x, y | 0 <= x < |r| && 0 <= y < |r| :: r[x][y] + r[y][x] == Capacity(g, x, y) + Capacity(g, y, x);
  }

  lemma {:induction false} AugmentedIsResidual(g: Matrix, r: Matrix, p: seq<nat>)
    requires Residual(g, r) && Path(r, p)
    ensures Residual(g, Augmented(r, p, 1))
  {
    if |p| > 1 {
      var q := p[..|p| - 1];
      AugmentedIsResidual(g, r, q);
      var b := p[|p| - 1];
      AugmentedElsewhere(r, q, 1, q[|q| - 1], b);
      assert r[p[|p| - 2]][b] != 0;
      PushKeepsResidual(g, Augmented(r, q, 1), q[|q| - 1], b);
    }
  }

  /** Augmenting along a path from the source to the sink turns the residual graph of a
      flow into that of a flow whose value is one larger. */
  lemma AugmentationAddsOne(g: Matrix, r: Matrix, p: seq<nat>, value: int)
    requires FlowOf(g, r, value) && Path(r, p)
    requires p[0] == Source(|g|) && p[|p| - 1] == Sink(|g|)
    ensures FlowOf(g, Augmented(r, p, 1), value + 1)
  {
    AugmentedIsResidual(g, r, p);
    var r' := Augmented(r, p, 1);
    forall x | 0 <= x < 2 * |g| ensures Sum(r'[x]) == Sum(CapacityRow(g, x)) {
      AugmentedRowSums(r, p, 1, x);
    }
    AugmentedRowSums(r, p, 1, Source(|g|));
  }
}
