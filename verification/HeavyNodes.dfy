/** Removing nodes that are too heavy for a balanced partition: each of them gets a block
    of its own, and the rest is partitioned into fewer blocks. */
module HeavyNodes {
  import opened Sums

  function AliveWeights(weights: seq<nat>, alive: seq<bool>): seq<int>
    requires |alive| == |weights|
  {
    seq(|weights|, v requires 0 <= v < |weights| => if alive[v] then weights[v] else 0)
  }

  function TotalWeight(weights: seq<nat>, alive: seq<bool>): int
    requires |alive| == |weights|
  {
    Sum(AliveWeights(weights, alive))
  }

  function Ones(alive: seq<bool>): seq<int> {
    seq(|alive|, v requires 0 <= v < |alive| => if alive[v] then 1 else 0)
  }

  function NumAlive(alive: seq<bool>): int {
    Sum(Ones(alive))
  }

  /** The total weight per block, rounded up. */
  function WeightPerBlock(total: nat, k: nat): nat
    requires k > 0
  {
    (total + k - 1) / k
  }

  /** The largest weight that a block may have with imbalance epsilon. */
  function AllowedWeight(total: nat, k: nat, epsilon: real): int
    requires k > 0
  {
    ((1.0 + epsilon) * (WeightPerBlock(total, k) as real)).Floor
  }

  /** The bound for the nodes that are there. */
  ghost function AllowedFor(weights: seq<nat>, alive: seq<bool>, k: nat, epsilon: real): int
    requires |alive| == |weights| && k > 0
  {
    TotalNonNegative(weights, alive);
    AllowedWeight(TotalWeight(weights, alive), k, epsilon)
  }

  lemma AllowedIsEnough(total: nat, k: nat, epsilon: real)
    requires k > 0 && epsilon >= 0.0
    ensures WeightPerBlock(total, k) <= AllowedWeight(total, k, epsilon)
    ensures total <= k * AllowedWeight(total, k, epsilon)
  {
    var w := WeightPerBlock(total, k);
    assert epsilon * (w as real) >= 0.0;
    assert (1.0 + epsilon) * (w as real) == w as real + epsilon * (w as real);
    assert w <= AllowedWeight(total, k, epsilon);
    WeightIsEnough(total, k);
    MultiplesOrdered(k, w, AllowedWeight(total, k, epsilon));
  }

  lemma NodeTaken(weights: seq<nat>, alive: seq<bool>, v: nat)
    requires |alive| == |weights| && v < |weights| && alive[v]
    ensures TotalWeight(weights, alive[v := false]) == TotalWeight(weights, alive) - weights[v]
    ensures NumAlive(alive[v := false]) == NumAlive(alive) - 1
  {
    SumUpdate(AliveWeights(weights, alive), v, 0);
    assert AliveWeights(weights, alive[v := false]) == AliveWeights(weights, alive)[v := 0];
    SumUpdate(Ones(alive), v, 0);
    assert Ones(alive[v := false]) == Ones(alive)[v := 0];
  }

  lemma TotalNonNegative(weights: seq<nat>, alive: seq<bool>)
    requires |alive| == |weights|
    ensures 0 <= TotalWeight(weights, alive)
  {
    var zeros := seq(|weights|, _ => 0);
    SumConstant(zeros, 0);
    SumMonotone(zeros, AliveWeights(weights, alive));
  }

  lemma FewerThanBlocks(heavy: nat, allowed: nat, k: nat, total: nat)
    requires k > 0 && heavy * (allowed + 1) <= total <= k * allowed
    ensures heavy < k
  {
    MultiplesOrdered(allowed + 1, k, heavy);
  }

  /** Removing nodes that are too heavy for their share lowers the bound, if anything. */
  lemma BoundDrops(total: nat, k: nat, epsilon: real, allowed: nat, heavy: nat, total': nat)
    requires 0 < k && epsilon >= 0.0 && heavy < k && allowed == AllowedWeight(total, k, epsilon)
    requires total' + heavy * (allowed + 1) <= total
    ensures AllowedWeight(total', k - heavy, epsilon) <= allowed
  {
    var w: nat, k': nat := WeightPerBlock(total, k), k - heavy;
    AllowedIsEnough(total, k, epsilon);
    WeightIsEnough(total, k);
    ShareLeft(total, k, w, heavy, allowed, total');
    EnoughWeight(total', k', w);
    AllowedOrdered(total', k', total, k, epsilon);
  }

  lemma AllowedOrdered(total': nat, k': nat, total: nat, k: nat, epsilon: real)
    requires 0 < k && 0 < k' && epsilon >= 0.0 && WeightPerBlock(total', k') <= WeightPerBlock(total, k)
    ensures AllowedWeight(total', k', epsilon) <= AllowedWeight(total, k, epsilon)
  {
    FloorOrdered(1.0 + epsilon, WeightPerBlock(total', k'), WeightPerBlock(total, k));
  }

  lemma ShareLeft(total: nat, k: nat, w: nat, heavy: nat, allowed: nat, total': nat)
    requires heavy < k && total <= k * w && w <= allowed && total' + heavy * (allowed + 1) <= total
    ensures total' <= (k - heavy) * w
  {
    assert heavy * w <= heavy * (allowed + 1);
    assert k * w == (k - heavy) * w + heavy * w;
  }

  lemma WeightIsEnough(total: nat, k: nat)
    requires k > 0
    ensures total <= k * WeightPerBlock(total, k)
  {
    var r := (total + k - 1) % k;
    assert total + k - 1 == k * WeightPerBlock(total, k) + r;
  }

  lemma EnoughWeight(total: nat, k: nat, w: nat)
    requires k > 0 && total <= k * w
    ensures WeightPerBlock(total, k) <= w
  {
    var q := WeightPerBlock(total, k);
    assert total + k - 1 == k * q + (total + k - 1) % k;
    assert k * q < k * (w + 1);
    MultiplesOrdered(k, w + 1, q);
  }

  lemma FloorOrdered(factor: real, x: nat, y: nat)
    requires 0.0 <= factor && x <= y
    ensures (factor * (x as real)).Floor <= (factor * (y as real)).Floor
  {
    assert factor * (x as real) <= factor * (y as real);
  }

  /** The nodes that are too heavy, in order. */
  ghost predicate TooHeavy(weights: seq<nat>, alive: seq<bool>, allowed: int, heavy: seq<nat>, n: nat)
    requires |alive| == |weights|
  {
    && (forall i {:trigger heavy[i]} | 0 <= i < |heavy| ::
          heavy[i] < n && heavy[i] < |weights| && alive[heavy[i]] && allowed < weights[heavy[i]])
    && (forall i, j {:trigger heavy[i], heavy[j]} | 0 <= i < j < |heavy| :: heavy[i] < heavy[j])
    && (forall v: nat {:trigger v in heavy} | v < n && v < |weights| && alive[v] && allowed < weights[v] :: v in heavy)
  }

  method CollectHeavy(weights: seq<nat>, alive: seq<bool>, allowed: int) returns (heavy: seq<nat>)
    requires |alive| == |weights|
    ensures TooHeavy(weights, alive, allowed, heavy, |weights|)
  {
    heavy := [];
    for v: nat := 0 to |weights|
      invariant TooHeavy(weights, alive, allowed, heavy, v)
    {
      if alive[v] && weights[v] > allowed {
        heavy := heavy + [v];
      }
    }
  }

  /** Removes the given nodes, all of which are heavier than allowed. */
  method RemoveNodes(weights: seq<nat>, before: seq<bool>, heavy: seq<nat>, totalWeight: int, k: int,
                     ghost allowed: int)
    returns (alive: seq<bool>, total: int, newK: int)
    requires |before| == |weights| && totalWeight == TotalWeight(weights, before)
    requires TooHeavy(weights, before, allowed, heavy, |weights|)
    ensures |alive| == |weights| && total == TotalWeight(weights, alive) && newK == k - |heavy|
    ensures total + |heavy| * (allowed + 1) <= totalWeight
    ensures NumAlive(alive) == NumAlive(before) - |heavy|
    ensures forall v: nat {:trigger alive[v]} | v < |alive| :: alive[v] <==> before[v] && weights[v] <= allowed
  {
    alive, total, newK := before, totalWeight, k;
    for i := 0 to |heavy|
      invariant |alive| == |weights| && total == TotalWeight(weights, alive) && newK == k - i
      invariant total + i * (allowed + 1) <= totalWeight
      invariant NumAlive(alive) == NumAlive(before) - i
      invariant forall v: nat {:trigger alive[v]} | v < |alive| :: alive[v] <==> before[v] && v !in heavy[..i]
    {
      assert heavy[i] !in heavy[..i];
      NodeTaken(weights, alive, heavy[i]);
      assert heavy[..i + 1] == heavy[..i] + [heavy[i]];
      assert (i + 1) * (allowed + 1) == i * (allowed + 1) + (allowed + 1);
      total := total - weights[heavy[i]];
      alive := alive[heavy[i] := false];
      newK := newK - 1;
    }
    assert heavy[..|heavy|] == heavy;
    forall v: nat | v < |alive| ensures alive[v] <==> before[v] && weights[v] <= allowed {
      assert v in heavy <==> before[v] && allowed < weights[v];
    }
  }

  lemma NoneAliveBelow(alive: seq<bool>)
    ensures 0 <= NumAlive(alive)
  {
    var zeros := seq(|alive|, _ => 0);
    SumConstant(zeros, 0);
    SumMonotone(zeros, Ones(alive));
  }

  /** There are no blocks to divide the weight by, or the number of blocks and the nodes left. */
  datatype Result = NoBlocks | Left(k: nat, alive: seq<bool>)

  /** Nodes are left only if they are not too heavy for what is left, and every node removed
      has taken a block. */
  ghost predicate NoneTooHeavy(weights: seq<nat>, before: seq<bool>, k: int, newK: int, alive: seq<bool>, epsilon: real)
    requires |before| == |weights|
  {
    && 0 < newK && |alive| == |weights| && k - newK == NumAlive(before) - NumAlive(alive)
    && var total := TotalWeight(weights, alive);
       0 <= total && forall v {:trigger alive[v]} | 0 <= v < |alive| && alive[v] ::
         before[v] && weights[v] <= AllowedWeight(total, newK, epsilon)
  }

  /** The other nodes would be too heavy. */
  ghost predicate NoneMissing(weights: seq<nat>, before: seq<bool>, newK: nat, alive: seq<bool>, epsilon: real)
    requires |before| == |weights| == |alive| && 0 < newK && 0 <= TotalWeight(weights, alive)
  {
    forall v {:trigger alive[v]} | 0 <= v < |alive| && before[v] && !alive[v] ::
      AllowedWeight(TotalWeight(weights, alive), newK, epsilon) < weights[v]
  }

  /** The nodes that are not too heavy. */
  function Light(weights: seq<nat>, alive: seq<bool>, allowed: int): (light: seq<bool>)
    requires |alive| == |weights|
    ensures |light| == |alive|
  {
    seq(|alive|, v requires 0 <= v < |alive| => alive[v] && weights[v] <= allowed)
  }

  ghost predicate NoneAbove(weights: seq<nat>, alive: seq<bool>, allowed: int)
    requires |alive| == |weights|
  {
    forall v {:trigger alive[v]} | 0 <= v < |alive| && alive[v] :: weights[v] <= allowed
  }

  lemma LightAreFewer(weights: seq<nat>, alive: seq<bool>, allowed: int)
    requires |alive| == |weights| && Light(weights, alive, allowed) != alive
    ensures 0 <= NumAlive(Light(weights, alive, allowed)) < NumAlive(alive)
  {
    var light := Light(weights, alive, allowed);
    var v :| 0 <= v < |alive| && light[v] != alive[v];
    NodeTaken(weights, alive, v);
    SumMonotone(Ones(light), Ones(alive[v := false]));
    NoneAliveBelow(light);
  }

  /** What the rounds end with that remove, as long as there are blocks, all nodes that are
      too heavy for the remaining weight and number of blocks. */
  ghost function Rounds(weights: seq<nat>, alive: seq<bool>, k: int, epsilon: real): Result
    requires |alive| == |weights|
    decreases NumAlive(alive)
  {
    if k <= 0 then NoBlocks
    else
      var light := Light(weights, alive, AllowedFor(weights, alive, k, epsilon));
      if light == alive then Left(k, alive)
      else
        LightAreFewer(weights, alive, AllowedFor(weights, alive, k, epsilon));
        Rounds(weights, light, k - (NumAlive(alive) - NumAlive(light)), epsilon)
  }

  /** Keeping just these nodes, with a block for each of the others, leaves nothing to
      remove, and nothing that need not have been removed. */
  ghost predicate Stable(weights: seq<nat>, before: seq<bool>, k: int, newK: int, keep: seq<bool>, epsilon: real)
    requires |before| == |weights|
  {
    && NoneTooHeavy(weights, before, k, newK, keep, epsilon)
    && NoneMissing(weights, before, newK, keep, epsilon)
  }

  ghost predicate Within(a: seq<bool>, b: seq<bool>) {
    |a| == |b| && forall v {:trigger a[v]} {:trigger b[v]} | 0 <= v < |a| && a[v] :: b[v]
  }

  /** Nodes that are heavier than the bound by themselves, and weigh accordingly together. */
  lemma {:induction false} HeavyTogether(weights: seq<nat>, alive: seq<bool>, keep: seq<bool>, least: nat)
    requires |weights| == |alive| && Within(keep, alive)
    requires forall v {:trigger keep[v]} | 0 <= v < |keep| && alive[v] && !keep[v] :: least <= weights[v]
    ensures NumAlive(keep) <= NumAlive(alive)
    ensures TotalWeight(weights, keep) + (NumAlive(alive) - NumAlive(keep)) * least <= TotalWeight(weights, alive)
    decreases NumAlive(alive)
  {
    NoneAliveBelow(alive);
    if v :| 0 <= v < |keep| && alive[v] && !keep[v] {
      NodeTaken(weights, alive, v);
      HeavyTogether(weights, alive[v := false], keep, least);
      assert (NumAlive(alive) - 1 - NumAlive(keep)) * least + least == (NumAlive(alive) - NumAlive(keep)) * least;
    } else {
      assert keep == alive;
    }
  }

  /** More nodes, each of which has a block and weighs more than its share: the share of all
      is no less. */
  lemma ShareRises(total: nat, k: nat, w: nat, more: nat, total': nat)
    requires 0 < k && w == WeightPerBlock(total, k) && total + more * (w + 1) <= total'
    ensures w <= WeightPerBlock(total', k + more)
  {
    var k', w' := k + more, WeightPerBlock(total', k + more);
    if w' < w {
      WeightIsEnough(total', k');
      assert total' <= k' * w' == k * w' + more * w';
      MultiplesOrdered(more, w', w + 1);
      assert total <= k * w';
      EnoughWeight(total, k, w');
    }
  }

  /** One round does not remove any node that can be kept in the end. */
  lemma StableStays(weights: seq<nat>, before: seq<bool>, k: int, alive: seq<bool>, newK: nat, epsilon: real,
                    keep: seq<bool>, keepK: int)
    requires |before| == |weights| == |alive| && epsilon >= 0.0 && 0 < newK
    requires Stable(weights, before, k, keepK, keep, epsilon) && Within(keep, alive) && Within(alive, before)
    requires k - newK == NumAlive(before) - NumAlive(alive) && 0 <= TotalWeight(weights, alive)
    ensures Within(keep, Light(weights, alive, AllowedWeight(TotalWeight(weights, alive), newK, epsilon)))
  {
    var total: nat, total': nat := TotalWeight(weights, keep), TotalWeight(weights, alive);
    var allowed, w: nat := AllowedWeight(total, keepK, epsilon), WeightPerBlock(total, keepK);
    AllowedIsEnough(total, keepK, epsilon);
    forall v {:trigger keep[v]} | 0 <= v < |keep| && alive[v] && !keep[v] ensures w + 1 <= weights[v] {
      assert before[v];
    }
    HeavyTogether(weights, alive, keep, w + 1);
    ShareRises(total, keepK, w, NumAlive(alive) - NumAlive(keep), total');
    AllowedOrdered(total, keepK, total', newK, epsilon);
  }

  /** All nodes that can be kept are kept: the rounds end with the most that are stable. */
  lemma {:induction false} RoundsKeepMost(weights: seq<nat>, before: seq<bool>, k: int, alive: seq<bool>, newK: int,
                                          epsilon: real, keep: seq<bool>, keepK: int)
    requires |before| == |weights| == |alive| && epsilon >= 0.0
    requires Stable(weights, before, k, keepK, keep, epsilon) && Within(keep, alive) && Within(alive, before)
    requires k - newK == NumAlive(before) - NumAlive(alive)
    ensures var r := Rounds(weights, alive, newK, epsilon);
            r.Left? && Within(keep, r.alive)
    decreases NumAlive(alive)
  {
    TotalNonNegative(weights, alive);
    HeavyTogether(weights, alive, keep, 0);
    var allowed := AllowedWeight(TotalWeight(weights, alive), newK, epsilon);
    StableStays(weights, before, k, alive, newK, epsilon, keep, keepK);
    var light := Light(weights, alive, allowed);
    if light != alive {
      LightAreFewer(weights, alive, allowed);
      RoundsKeepMost(weights, before, k, light, newK - (NumAlive(alive) - NumAlive(light)), epsilon, keep, keepK);
    }
  }

  /** Removes nodes that are too heavy until there are none, each time for the remaining
      weight and number of blocks. If the imbalance is not negative there are blocks left in
      the end, and what is left are exactly the nodes that are not too heavy for it. No other
      choice of which that is true keeps a node that has been removed. */
  method RemoveHeavyNodes(weights: seq<nat>, before: seq<bool>, k: nat, epsilon: real) returns (r: Result)
    requires |before| == |weights|
    ensures r == Rounds(weights, before, k, epsilon)
    ensures r.NoBlocks? ==> k == 0 || epsilon < 0.0
    ensures r.Left? ==> NoneTooHeavy(weights, before, k, r.k, r.alive, epsilon)
    ensures r.Left? && epsilon >= 0.0 ==> NoneMissing(weights, before, r.k, r.alive, epsilon)
    ensures epsilon >= 0.0 ==>
              forall keep, keepK {:trigger Stable(weights, before, k, keepK, keep, epsilon)} |
                Stable(weights, before, k, keepK, keep, epsilon) :: r.Left? && Within(keep, r.alive)
    ensures k > 0 && NoneAbove(weights, before, AllowedFor(weights, before, k, epsilon)) ==> r == Left(k, before)
  {
    var totalWeight := WeightOf(weights, before);
    var newK: int, alive := k, before;
    while true
      invariant |alive| == |weights| && 0 <= totalWeight == TotalWeight(weights, alive)
      invariant k - newK == NumAlive(before) - NumAlive(alive)
      invariant forall v {:trigger alive[v]} | 0 <= v < |alive| && alive[v] :: before[v]
      invariant newK <= 0 ==> k == 0 || epsilon < 0.0
      invariant epsilon >= 0.0 && 0 < newK ==> NoneMissing(weights, before, newK, alive, epsilon)
      invariant Rounds(weights, alive, newK, epsilon) == Rounds(weights, before, k, epsilon)
      decreases NumAlive(alive)
    {
      if newK <= 0 {
        r := NoBlocks;
        break;
      }
      NoneAliveBelow(alive);
      var allowed := AllowedWeight(totalWeight, newK, epsilon);
      var heavy := CollectHeavy(weights, alive, allowed);
      if |heavy| == 0 {
        assert forall v: nat | v < |weights| && alive[v] :: v !in heavy;
        assert Light(weights, alive, allowed) == alive;
        r := Left(newK, alive);
        break;
      }
      alive, totalWeight, newK := RemoveRound(weights, before, alive, heavy, totalWeight, newK, epsilon, allowed);
    }
    if k > 0 && NoneAbove(weights, before, AllowedFor(weights, before, k, epsilon)) {
      assert Light(weights, before, AllowedFor(weights, before, k, epsilon)) == before;
    }
    if epsilon >= 0.0 {
      forall keep, keepK | Stable(weights, before, k, keepK, keep, epsilon) ensures r.Left? && Within(keep, r.alive) {
        RoundsKeepMost(weights, before, k, before, k, epsilon, keep, keepK);
      }
    }
  }

  /** One round of the loop. */
  method RemoveRound(weights: seq<nat>, ghost before: seq<bool>, alive: seq<bool>, heavy: seq<nat>, totalWeight: nat,
                     k: nat, ghost epsilon: real, ghost allowed: int)
    returns (alive': seq<bool>, total': int, k': int)
    requires |before| == |weights| == |alive| && 0 < k && totalWeight == TotalWeight(weights, alive)
    requires allowed == AllowedWeight(totalWeight, k, epsilon) && heavy != []
    requires TooHeavy(weights, alive, allowed, heavy, |weights|)
    ensures |alive'| == |weights| && 0 <= total' == TotalWeight(weights, alive')
    ensures k' - k == NumAlive(alive') - NumAlive(alive) < 0
    ensures forall v {:trigger alive'[v]} | 0 <= v < |alive'| && alive'[v] :: alive[v]
    ensures Rounds(weights, alive, k, epsilon) == Rounds(weights, alive', k', epsilon)
    ensures epsilon >= 0.0 ==> 0 < k'
    ensures epsilon >= 0.0 && NoneMissing(weights, before, k, alive, epsilon) ==>
              NoneMissing(weights, before, k', alive', epsilon)
  {
    alive', total', k' := RemoveNodes(weights, alive, heavy, totalWeight, k, allowed);
    TotalNonNegative(weights, alive');
    assert alive' == Light(weights, alive, allowed);
    assert alive' != alive;
    if epsilon >= 0.0 {
      AllowedIsEnough(totalWeight, k, epsilon);
      FewerThanBlocks(|heavy|, allowed, k, totalWeight);
      BoundDrops(totalWeight, k, epsilon, allowed, |heavy|, total');
    }
  }

  /** The total weight of the nodes that are there. */
  method WeightOf(weights: seq<nat>, alive: seq<bool>) returns (total: int)
    requires |alive| == |weights|
    ensures 0 <= total == TotalWeight(weights, alive)
  {
    total := 0;
    TotalNonNegative(weights, alive);
    for v := 0 to |weights|
      invariant total == Sum(AliveWeights(weights, alive)[..v])
    {
      SumPrefix(AliveWeights(weights, alive), v);
      if alive[v] {
        total := total + weights[v];
      }
    }
    assert AliveWeights(weights, alive)[..|weights|] == AliveWeights(weights, alive);
  }
}
