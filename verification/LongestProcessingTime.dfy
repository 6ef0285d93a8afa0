/** Packing nodes into blocks by the rule of the longest processing time: heaviest node
    first, always onto the lightest block; and how far from optimal that can be. */
module LongestProcessingTime {
  import opened Sums

  /** The first t jobs as they count for bin b. */
  function OnBin(jobs: seq<nat>, a: seq<nat>, b: nat): seq<int>
    requires |a| == |jobs|
  {
    seq(|jobs|, i requires 0 <= i < |jobs| => if a[i] == b then jobs[i] else 0)
  }

  /** The weight that a puts on bin b. */
  function Load(jobs: seq<nat>, a: seq<nat>, b: nat): int
    requires |a| == |jobs|
  {
    Sum(OnBin(jobs, a, b))
  }

  /** The number of jobs that a puts on bin b. */
  function Count(a: seq<nat>, b: nat): int {
    Sum(seq(|a|, i requires 0 <= i < |a| => if a[i] == b then 1 else 0))
  }

  function Loads(jobs: seq<nat>, a: seq<nat>, k: nat): (loads: seq<int>)
    requires |a| == |jobs|
    ensures |loads| == k && forall b {:trigger loads[b]} | 0 <= b < k :: loads[b] == Load(jobs, a, b)
  {
    seq(k, b requires 0 <= b < k => Load(jobs, a, b))
  }

  function Counts(a: seq<nat>, k: nat): (counts: seq<int>)
    ensures |counts| == k && forall b {:trigger counts[b]} | 0 <= b < k :: counts[b] == Count(a, b)
  {
    seq(k, b requires 0 <= b < k => Count(a, b))
  }

  ghost predicate Assigns(a: seq<nat>, n: nat, k: nat) {
    |a| == n && forall i {:trigger a[i]} | 0 <= i < n :: a[i] < k
  }

  /** No bin gets more than l. */
  ghost predicate Fits(jobs: seq<nat>, a: seq<nat>, k: nat, l: nat) {
    Assigns(a, |jobs|, k) && forall b {:trigger Load(jobs, a, b)} | 0 <= b < k :: Load(jobs, a, b) <= l
  }

  ghost predicate Descending(jobs: seq<nat>) {
    forall i, j {:trigger jobs[i], jobs[j]} | 0 <= i <= j < |jobs| :: jobs[j] <= jobs[i]
  }

  // ------------------------------------------------------------- loads and counts

  lemma OneMoreJob(jobs: seq<nat>, a: seq<nat>, w: nat, c: nat, b: nat)
    requires |a| == |jobs|
    ensures Load(jobs + [w], a + [c], b) == Load(jobs, a, b) + if b == c then w else 0
    ensures Count(a + [c], b) == Count(a, b) + if b == c then 1 else 0
  {
    var w' := if b == c then w else 0;
    assert OnBin(jobs + [w], a + [c], b) == OnBin(jobs, a, b) + [w'];
    SumSnoc(OnBin(jobs, a, b), w');
    var one := if b == c then 1 else 0;
    var ones := seq(|a|, i requires 0 <= i < |a| => if a[i] == b then 1 else 0);
    assert seq(|a + [c]|, i requires 0 <= i < |a + [c]| => if (a + [c])[i] == b then 1 else 0) == ones + [one];
    SumSnoc(ones, one);
  }

  lemma LastJob(jobs: seq<nat>, a: seq<nat>, b: nat)
    requires |a| == |jobs| && jobs != []
    ensures var n := |jobs| - 1;
            && Load(jobs, a, b) == Load(jobs[..n], a[..n], b) + (if a[n] == b then jobs[n] else 0)
            && Count(a, b) == Count(a[..n], b) + (if a[n] == b then 1 else 0)
  {
    var n := |jobs| - 1;
    assert jobs == jobs[..n] + [jobs[n]] && a == a[..n] + [a[n]];
    OneMoreJob(jobs[..n], a[..n], jobs[n], a[n], b);
  }

  lemma NoJobs(b: nat)
    ensures Load([], [], b) == 0 && Count([], b) == 0
  {
    assert OnBin([], [], b) == [];
    var none: seq<nat> := [];
    assert seq(|none|, i requires 0 <= i < |none| => if none[i] == b then 1 else 0) == [];
  }

  lemma LastLoads(jobs: seq<nat>, a: seq<nat>, k: nat)
    requires Assigns(a, |jobs|, k) && jobs != []
    ensures var n := |jobs| - 1;
            var loads, counts := Loads(jobs[..n], a[..n], k), Counts(a[..n], k);
            && Loads(jobs, a, k) == loads[a[n] := loads[a[n]] + jobs[n]]
            && Counts(a, k) == counts[a[n] := counts[a[n]] + 1]
  {
    var n := |jobs| - 1;
    var loads, counts := Loads(jobs[..n], a[..n], k), Counts(a[..n], k);
    forall b | 0 <= b < k
      ensures Loads(jobs, a, k)[b] == loads[a[n] := loads[a[n]] + jobs[n]][b]
      ensures Counts(a, k)[b] == counts[a[n] := counts[a[n]] + 1][b]
    {
      LastJob(jobs, a, b);
    }
  }

  lemma NoLoads(k: nat)
    ensures forall b {:trigger Loads([], [], k)[b]} | 0 <= b < k :: Loads([], [], k)[b] == 0
    ensures forall b {:trigger Counts([], k)[b]} | 0 <= b < k :: Counts([], k)[b] == 0
  {
    forall b | 0 <= b < k ensures Loads([], [], k)[b] == 0 && Counts([], k)[b] == 0 {
      NoJobs(b);
    }
  }

  /** The loads of all bins add up to the weight of all jobs, the counts to their number. */
  lemma {:induction false} LoadsAddUp(jobs: seq<nat>, a: seq<nat>, k: nat)
    requires Assigns(a, |jobs|, k)
    ensures Sum(Loads(jobs, a, k)) == Sum(jobs)
    ensures Sum(Counts(a, k)) == |jobs|
    decreases |jobs|
  {
    if jobs == [] {
      NoLoads(k);
      SumConstant(Loads(jobs, a, k), 0);
      SumConstant(Counts(a, k), 0);
    } else {
      var n := |jobs| - 1;
      var loads, counts := Loads(jobs[..n], a[..n], k), Counts(a[..n], k);
      LoadsAddUp(jobs[..n], a[..n], k);
      assert jobs == jobs[..n] + [jobs[n]];
      SumSnoc(jobs[..n], jobs[n]);
      LastLoads(jobs, a, k);
      SumUpdate(loads, a[n], loads[a[n]] + jobs[n]);
      SumUpdate(counts, a[n], counts[a[n]] + 1);
    }
  }

  /** Jobs of weight x at least, so many of them, weigh accordingly. */
  lemma {:induction false} CountTimes(jobs: seq<nat>, a: seq<nat>, b: nat, x: nat)
    requires |a| == |jobs| && forall i | 0 <= i < |jobs| :: x <= jobs[i]
    ensures 0 <= Count(a, b) && Count(a, b) * x <= Load(jobs, a, b)
    decreases |jobs|
  {
    if jobs == [] {
      NoJobs(b);
    } else {
      var n := |jobs| - 1;
      CountTimes(jobs[..n], a[..n], b, x);
      LastJob(jobs, a, b);
      assert (Count(a[..n], b) + 1) * x == Count(a[..n], b) * x + x;
    }
  }

  /** A bin holds at least each of its jobs. */
  lemma {:induction false} JobFits(jobs: seq<nat>, a: seq<nat>, i: nat)
    requires |a| == |jobs| && i < |jobs|
    ensures jobs[i] <= Load(jobs, a, a[i]) && 1 <= Count(a, a[i])
    decreases |jobs|
  {
    var n := |jobs| - 1;
    LastJob(jobs, a, a[i]);
    CountTimes(jobs[..n], a[..n], a[i], 0);
    if i < n {
      JobFits(jobs[..n], a[..n], i);
    }
  }

  /** A bin with two jobs holds each of them and another one, which weighs x at least. */
  lemma {:induction false} TwoJobsFit(jobs: seq<nat>, a: seq<nat>, i: nat, x: nat)
    requires |a| == |jobs| && i < |jobs| && 2 <= Count(a, a[i])
    requires forall j | 0 <= j < |jobs| :: x <= jobs[j]
    ensures jobs[i] + x <= Load(jobs, a, a[i])
    decreases |jobs|
  {
    var n := |jobs| - 1;
    LastJob(jobs, a, a[i]);
    if i == n {
      CountTimes(jobs[..n], a[..n], a[i], x);
      assert x <= Count(a[..n], a[i]) * x;
    } else if a[n] == a[i] {
      JobFits(jobs[..n], a[..n], i);
    } else {
      TwoJobsFit(jobs[..n], a[..n], i, x);
    }
  }

  lemma {:induction false} TwoJobsCount(a: seq<nat>, i: nat, j: nat)
    requires i < j < |a| && a[i] == a[j]
    ensures 2 <= Count(a, a[i])
    decreases |a|
  {
    var n := |a| - 1;
    LastJob(a, a, a[i]);
    if j < n {
      TwoJobsCount(a[..n], i, j);
    } else {
      JobFits(a[..n], a[..n], i);
    }
  }

  /** The job of a bin that has only one. */
  lemma {:induction false} OnlyJob(jobs: seq<nat>, a: seq<nat>, b: nat) returns (i: nat)
    requires |a| == |jobs| && Count(a, b) == 1
    ensures i < |jobs| && a[i] == b && Load(jobs, a, b) == jobs[i]
    decreases |jobs|
  {
    if a == [] {
      NoJobs(b);
    } else {
      var n := |jobs| - 1;
      LastJob(jobs, a, b);
      if a[n] == b {
        i := n;
        NoJobNoLoad(jobs[..n], a[..n], b);
      } else {
        i := OnlyJob(jobs[..n], a[..n], b);
      }
    }
  }

  lemma {:induction false} NoJobNoLoad(jobs: seq<nat>, a: seq<nat>, b: nat)
    requires |a| == |jobs| && Count(a, b) == 0
    ensures Load(jobs, a, b) == 0
    decreases |jobs|
  {
    if jobs == [] {
      NoJobs(b);
    } else {
      var n := |jobs| - 1;
      LastJob(jobs, a, b);
      CountTimes(jobs[..n], a[..n], b, 0);
      NoJobNoLoad(jobs[..n], a[..n], b);
    }
  }

  // ------------------------------------------------------- no better than optimal

  /** Whatever fits the jobs also fits the first of them. */
  lemma {:induction false} PrefixFits(jobs: seq<nat>, a: seq<nat>, k: nat, l: nat, t: nat)
    requires Fits(jobs, a, k, l) && t <= |jobs|
    ensures Fits(jobs[..t], a[..t], k, l)
    decreases |jobs|
  {
    var n := |jobs|;
    if t == n {
      assert jobs[..t] == jobs && a[..t] == a;
    } else {
      var jobs', a' := jobs[..n - 1], a[..n - 1];
      forall b {:trigger Load(jobs', a', b)} | 0 <= b < k ensures Load(jobs', a', b) <= l {
        LastJob(jobs, a, b);
        assert Load(jobs, a, b) <= l;
      }
      PrefixFits(jobs[..n - 1], a[..n - 1], k, l, t);
      assert jobs[..n - 1][..t] == jobs[..t] && a[..n - 1][..t] == a[..t];
    }
  }

  /** The total weight is at most k times the largest load. */
  lemma TotalFits(jobs: seq<nat>, a: seq<nat>, k: nat, l: nat)
    requires Fits(jobs, a, k, l)
    ensures Sum(jobs) <= k * l
  {
    LoadsAddUp(jobs, a, k);
    var most := seq(k, _ => l);
    forall b | 0 <= b < k ensures Loads(jobs, a, k)[b] <= most[b] {
      assert Load(jobs, a, b) <= l;
    }
    SumMonotone(Loads(jobs, a, k), most);
    SumConstant(most, l);
    assert l * k == k * l;
  }

  /** If no three jobs fit together, and each of the given ones fits with no other, the
      bins hold two jobs at most, and those of the given ones just one. */
  lemma FewJobsFit(jobs: seq<nat>, opt: seq<nat>, k: nat, l: nat, x: nat, singles: seq<nat>)
    requires Fits(jobs, opt, k, l) && l < 3 * x && forall j | 0 <= j < |jobs| :: x <= jobs[j]
    requires forall a {:trigger singles[a]} | 0 <= a < |singles| :: singles[a] < |jobs| && l < jobs[singles[a]] + x
    requires forall a, b {:trigger singles[a], singles[b]} | 0 <= a < b < |singles| :: singles[a] != singles[b]
    ensures |jobs| + |singles| <= 2 * k
  {
    var bins := seq(|singles|, a requires 0 <= a < |singles| => opt[singles[a]]);
    forall a | 0 <= a < |singles| ensures bins[a] < k && Count(opt, bins[a]) <= 1 {
      var i := singles[a];
      assert opt[i] < k && Load(jobs, opt, opt[i]) <= l;
      if 2 <= Count(opt, opt[i]) {
        TwoJobsFit(jobs, opt, i, x);
      }
    }
    forall a, b | 0 <= a < b < |bins| ensures bins[a] != bins[b] {
      var i, j := singles[a], singles[b];
      assert Count(opt, bins[a]) <= 1;
      if opt[i] == opt[j] {
        TwoJobsCount(opt, if i < j then i else j, if i < j then j else i);
      }
    }
    var most := seq(k, _ => 2);
    var ones := Indicator(k, Elements(bins), 1);
    var limits := seq(k, b requires 0 <= b < k => most[b] - ones[b]);
    forall b | 0 <= b < k ensures Counts(opt, k)[b] <= limits[b] {
      CountTimes(jobs, opt, b, x);
      assert Load(jobs, opt, b) <= l;
      AtMostTwo(Count(opt, b), x, l);
      if b in bins {
        var a :| 0 <= a < |bins| && bins[a] == b;
        assert Count(opt, bins[a]) <= 1;
      }
    }
    SumMonotone(Counts(opt, k), limits);
    LoadsAddUp(jobs, opt, k);
    SumAdd(limits, ones, most);
    SumConstant(most, 2);
    SumIndicator(k, Elements(bins), 1);
    assert forall b | b in bins :: b < k;
    assert (set i: nat | i < k && i in Elements(bins)) == Elements(bins);
    DistinctSize(bins);
  }

  lemma AtMostTwo(c: int, x: nat, l: nat)
    requires c * x <= l < 3 * x
    ensures c <= 2
  {
    MultiplesOrdered(x, 3, c);
  }

  /** Where every bin has one or two jobs, those that are alone make up the difference to
      two jobs per bin. */
  lemma JobsAlone(jobs: seq<nat>, a: seq<nat>, k: nat) returns (singles: seq<nat>)
    requires Assigns(a, |jobs|, k)
    requires forall b {:trigger Count(a, b)} | 0 <= b < k :: 1 <= Count(a, b) <= 2
    ensures |jobs| + |singles| == 2 * k
    ensures forall s {:trigger singles[s]} | 0 <= s < |singles| ::
              singles[s] < |jobs| && jobs[singles[s]] == Load(jobs, a, a[singles[s]])
    ensures forall s, u {:trigger singles[s], singles[u]} | 0 <= s < u < |singles| :: singles[s] != singles[u]
  {
    singles := [];
    var counts := Counts(a, k);
    for b: nat := 0 to k
      invariant Sum(counts[..b]) + |singles| == 2 * b
      invariant forall s {:trigger singles[s]} | 0 <= s < |singles| ::
                  singles[s] < |jobs| && a[singles[s]] < b && jobs[singles[s]] == Load(jobs, a, a[singles[s]])
      invariant forall s, u {:trigger singles[s], singles[u]} | 0 <= s < u < |singles| :: singles[s] != singles[u]
    {
      SumPrefix(counts, b);
      assert 1 <= Count(a, b) <= 2;
      if Count(a, b) == 1 {
        var i := OnlyJob(jobs, a, b);
        singles := singles + [i];
      }
    }
    assert counts[..k] == counts;
    LoadsAddUp(jobs, a, k);
  }

  /** As long as no three of the jobs fit together, putting the next job onto the lightest
      bin keeps within every limit that can be kept at all. */
  lemma NextJobFits(jobs: seq<nat>, lpt: seq<nat>, opt: seq<nat>, k: nat, l: nat, w: nat, b: nat)
    requires Fits(jobs, lpt, k, l) && Fits(jobs + [w], opt, k, l) && l < 3 * w
    requires forall i | 0 <= i < |jobs| :: w <= jobs[i]
    requires b < k && forall c {:trigger Load(jobs, lpt, c)} | 0 <= c < k :: Load(jobs, lpt, b) <= Load(jobs, lpt, c)
    ensures Load(jobs, lpt, b) + w <= l
  {
    var n := |jobs|;
    JobFits(jobs + [w], opt, n);
    assert opt[n] < k && Load(jobs + [w], opt, opt[n]) <= l;
    if c :| 0 <= c < k && Count(lpt, c) == 0 {
      NoJobNoLoad(jobs, lpt, c);
      assert Load(jobs, lpt, b) <= Load(jobs, lpt, c);
    } else if l < Load(jobs, lpt, b) + w {
      forall c | 0 <= c < k ensures 1 <= Count(lpt, c) <= 2 {
        CountTimes(jobs, lpt, c, w);
        assert Load(jobs, lpt, c) <= l;
        AtMostTwo(Count(lpt, c), w, l);
      }
      var singles := JobsAlone(jobs, lpt, k);
      forall s | 0 <= s < |singles| ensures singles[s] < |jobs + [w]| && l < (jobs + [w])[singles[s]] + w {
        var i := singles[s];
        assert lpt[i] < k && Load(jobs, lpt, b) <= Load(jobs, lpt, lpt[i]);
      }
      FewJobsFit(jobs + [w], opt, k, l, w, singles);
    }
  }

  /** The lightest bin is not above average. */
  lemma LightestBelowAverage(jobs: seq<nat>, a: seq<nat>, k: nat, b: nat)
    requires Assigns(a, |jobs|, k)
    requires b < k && forall c {:trigger Load(jobs, a, c)} | 0 <= c < k :: Load(jobs, a, b) <= Load(jobs, a, c)
    ensures k * Load(jobs, a, b) <= Sum(jobs)
  {
    LoadsAddUp(jobs, a, k);
    var least := seq(k, _ => Load(jobs, a, b));
    SumConstant(least, Load(jobs, a, b));
    SumMonotone(least, Loads(jobs, a, k));
    assert Load(jobs, a, b) * k == k * Load(jobs, a, b);
  }

  /** The load is within 4/3 - 1/(3k) times l. */
  predicate WithinFourThirds(load: int, k: nat, l: nat) {
    3 * (k * load) <= 4 * (k * l) - l
  }

  /** What holds of the loads while jobs are placed, l being any limit that all the jobs can
      be made to fit. */
  ghost predicate Graham(jobs: seq<nat>, lpt: seq<nat>, k: nat, l: nat) {
    && Assigns(lpt, |jobs|, k)
    && (forall b {:trigger Load(jobs, lpt, b)} | 0 <= b < k :: WithinFourThirds(Load(jobs, lpt, b), k, l))
    && (jobs == [] || l < 3 * jobs[|jobs| - 1] ==> Fits(jobs, lpt, k, l))
  }

  lemma SmallJobFits(m: int, w: nat, k: nat, l: nat, total: int)
    requires k > 0 && k * m <= total && total + w <= k * l && 3 * w <= l
    ensures WithinFourThirds(m + w, k, l)
  {
    assert k * (m + w) == k * m + k * w;
    ThirdOf(k, w, l);
  }

  lemma ThirdOf(k: nat, w: nat, l: nat)
    requires k > 0 && 3 * w <= l
    ensures 3 * (k * w) - 3 * w <= k * l - l
  {
    var d: nat := l - 3 * w;
    MultiplesOrdered(d, 1, k);
    assert k * d == k * l - k * (3 * w);
    assert k * (3 * w) == 3 * (k * w);
  }

  lemma BelowLimit(m: int, k: nat, l: nat)
    requires k > 0 && m <= l
    ensures WithinFourThirds(m, k, l)
  {
    assert k * m <= k * l;
    assert l <= k * l;
  }

  /** Placing the next job onto the lightest bin. */
  lemma GrahamStep(jobs: seq<nat>, w: nat, lpt: seq<nat>, opt: seq<nat>, k: nat, l: nat, b: nat)
    requires Graham(jobs, lpt, k, l) && Fits(jobs + [w], opt, k, l)
    requires Descending(jobs + [w])
    requires b < k && forall c {:trigger Load(jobs, lpt, c)} | 0 <= c < k :: Load(jobs, lpt, b) <= Load(jobs, lpt, c)
    ensures Graham(jobs + [w], lpt + [b], k, l)
  {
    var jobs', lpt' := jobs + [w], lpt + [b];
    var n := |jobs|;
    assert jobs'[n] == w && forall i | 0 <= i < n :: jobs'[i] == jobs[i] && jobs'[n] <= jobs'[i];
    TotalFits(jobs', opt, k, l);
    SumSnoc(jobs, w);
    LightestBelowAverage(jobs, lpt, k, b);
    if l < 3 * w {
      assert jobs != [] ==> w <= jobs[n - 1];
      NextJobFits(jobs, lpt, opt, k, l, w, b);
    } else {
      SmallJobFits(Load(jobs, lpt, b), w, k, l, Sum(jobs));
    }
    forall c | 0 <= c < k
      ensures WithinFourThirds(Load(jobs', lpt', c), k, l)
      ensures l < 3 * w ==> Load(jobs', lpt', c) <= l
    {
      OneMoreJob(jobs, lpt, w, b, c);
      assert WithinFourThirds(Load(jobs, lpt, c), k, l);
      if l < 3 * w {
        assert Load(jobs, lpt, c) <= l;
        BelowLimit(Load(jobs', lpt', c), k, l);
      }
    }
  }

  // ------------------------------------------------------ nodes and sorted jobs

  lemma SumWithout(s: seq<int>, i: nat)
    requires i < |s|
    ensures Sum(s) == Sum(s[..i] + s[i + 1..]) + s[i]
  {
    var before, after, x := s[..i], s[i + 1..], s[i];
    assert s == (before + [x]) + after;
    SumConcat(before + [x], after);
    SumSnoc(before, x);
    SumConcat(before, after);
  }

  lemma LoadWithout(s: seq<nat>, a: seq<nat>, i: nat, b: nat)
    requires |a| == |s| && i < |s|
    ensures Load(s, a, b) == Load(s[..i] + s[i + 1..], a[..i] + a[i + 1..], b) + if a[i] == b then s[i] else 0
  {
    var all := OnBin(s, a, b);
    SumWithout(all, i);
    assert OnBin(s[..i] + s[i + 1..], a[..i] + a[i + 1..], b) == all[..i] + all[i + 1..];
  }

  lemma RestMatches(s: seq<nat>, t: seq<nat>, i: nat)
    requires multiset(s) == multiset(t) && t != [] && i < |s| && s[i] == t[|t| - 1]
    ensures multiset(s[..i] + s[i + 1..]) == multiset(t[..|t| - 1])
    ensures |s| == |t|
  {
    assert s == s[..i] + [s[i]] + s[i + 1..];
    assert t == t[..|t| - 1] + [t[|t| - 1]];
    assert multiset(s) - multiset{s[i]} == multiset(s[..i] + s[i + 1..]);
    assert multiset(t) - multiset{s[i]} == multiset(t[..|t| - 1]);
  }

  /** An assignment of the same weights in another order that fills the bins alike. */
  lemma {:induction false} Rearranged(s: seq<nat>, t: seq<nat>, a: seq<nat>, k: nat) returns (a': seq<nat>)
    requires multiset(s) == multiset(t) && Assigns(a, |s|, k)
    ensures Assigns(a', |t|, k) && forall b {:trigger Load(t, a', b)} :: Load(t, a', b) == Load(s, a, b)
    decreases |t|
  {
    assert |s| == |multiset(s)| == |multiset(t)| == |t|;
    if t == [] {
      a' := [];
      assert s == [] && a == [];
    } else {
      var n := |t| - 1;
      assert t[n] in multiset(t);
      assert t[n] in s;
      var i :| 0 <= i < |s| && s[i] == t[n];
      RestMatches(s, t, i);
      assert t == t[..n] + [t[n]];
      var rest := Rearranged(s[..i] + s[i + 1..], t[..n], a[..i] + a[i + 1..], k);
      a' := rest + [a[i]];
      forall b: nat ensures Load(t, a', b) == Load(s, a, b) {
        LoadWithout(s, a, i, b);
        OneMoreJob(t[..n], rest, t[n], a[i], b);
        assert Load(t[..n], rest, b) == Load(s[..i] + s[i + 1..], a[..i] + a[i + 1..], b);
      }
    }
  }

  /** How many nodes have which weight, heaviest first. */
  datatype Entry = Entry(weight: nat, count: nat)

  function Repeated(w: nat, c: nat): seq<nat> {
    seq(c, _ => w)
  }

  function Expanded(d: seq<Entry>): seq<nat> {
    if d == [] then [] else Repeated(d[0].weight, d[0].count) + Expanded(d[1..])
  }

  ghost predicate HeaviestFirst(d: seq<Entry>) {
    forall i, j {:trigger d[i], d[j]} | 0 <= i < j < |d| :: d[j].weight < d[i].weight
  }

  /** One more node of weight w. */
  function CountWeight(d: seq<Entry>, w: nat): seq<Entry> {
    if d == [] || d[0].weight < w then [Entry(w, 1)] + d
    else if d[0].weight == w then [Entry(w, d[0].count + 1)] + d[1..]
    else [d[0]] + CountWeight(d[1..], w)
  }

  lemma {:induction false} WeightCounted(d: seq<Entry>, w: nat)
    ensures multiset(Expanded(CountWeight(d, w))) == multiset(Expanded(d)) + multiset{w}
  {
    var d' := CountWeight(d, w);
    if d == [] || d[0].weight < w {
      assert d'[1..] == d && Repeated(w, 1) == [w];
    } else if d[0].weight == w {
      assert d'[1..] == d[1..];
      assert Repeated(w, d[0].count + 1) == Repeated(w, d[0].count) + [w];
    } else {
      WeightCounted(d[1..], w);
      assert d'[1..] == CountWeight(d[1..], w);
    }
  }

  /** All entries are lighter than x. */
  ghost predicate LighterThan(d: seq<Entry>, x: nat) {
    forall i {:trigger d[i]} | 0 <= i < |d| :: d[i].weight < x
  }

  lemma {:induction false} CountedHeaviestFirst(d: seq<Entry>, w: nat, x: nat)
    requires HeaviestFirst(d) && LighterThan(d, x) && w < x
    ensures HeaviestFirst(CountWeight(d, w)) && LighterThan(CountWeight(d, w), x)
  {
    if d != [] && w < d[0].weight {
      var rest := CountWeight(d[1..], w);
      CountedHeaviestFirst(d[1..], w, d[0].weight);
      forall i, j | 0 <= i < j < |rest| + 1 ensures ([d[0]] + rest)[j].weight < ([d[0]] + rest)[i].weight {
        assert rest[j - 1].weight < d[0].weight;
      }
    }
  }

  /** A number above w and above all weights. */
  ghost function Above(d: seq<Entry>, w: nat): (x: nat)
    ensures w < x && (HeaviestFirst(d) ==> LighterThan(d, x))
  {
    if d == [] || d[0].weight < w then w + 1 else d[0].weight + 1
  }

  lemma {:induction false} ExpandedDescends(d: seq<Entry>)
    requires HeaviestFirst(d)
    ensures Descending(Expanded(d))
    ensures forall w | w in Expanded(d) :: exists e :: e in d && e.weight == w
  {
    if d != [] {
      ExpandedDescends(d[1..]);
      var head, tail := Repeated(d[0].weight, d[0].count), Expanded(d[1..]);
      forall w | w in tail ensures w <= d[0].weight && exists e :: e in d && e.weight == w {
        var e :| e in d[1..] && e.weight == w;
        var i :| 1 <= i < |d| && d[i] == e;
      }
      forall i, j | 0 <= i <= j < |head + tail| ensures (head + tail)[j] <= (head + tail)[i] {
        if |head| <= i {
          assert tail[j - |head|] <= tail[i - |head|];
        } else if |head| <= j {
          assert tail[j - |head|] in tail;
        }
      }
      forall w | w in head ensures exists e :: e in d && e.weight == w {
        assert d[0] in d;
      }
    }
  }

  /** The distribution of the given weights. */
  ghost predicate Distributes(d: seq<Entry>, weights: seq<nat>) {
    HeaviestFirst(d) && multiset(Expanded(d)) == multiset(weights)
  }

  lemma DistributesOn(d: seq<Entry>, weights: seq<nat>, w: nat)
    requires Distributes(d, weights)
    ensures Distributes(CountWeight(d, w), weights + [w])
  {
    WeightCounted(d, w);
    CountedHeaviestFirst(d, w, Above(d, w));
  }

  method WeightDistribution(weights: seq<nat>) returns (distribution: seq<Entry>)
    ensures Distributes(distribution, weights)
  {
    distribution := [];
    for v: nat := 0 to |weights|
      invariant Distributes(distribution, weights[..v])
    {
      assert weights[..v + 1] == weights[..v] + [weights[v]];
      DistributesOn(distribution, weights[..v], weights[v]);
      distribution := CountWeight(distribution, weights[v]);
    }
    assert weights[..|weights|] == weights;
  }

  // -------------------------------------------------------------- the algorithm

  /** A lightest bin. */
  method Lightest(bins: seq<int>) returns (b: nat)
    requires bins != []
    ensures b < |bins| && forall c {:trigger bins[c]} | 0 <= c < |bins| :: bins[b] <= bins[c]
  {
    b := 0;
    for c: nat := 1 to |bins|
      invariant b < |bins| && forall d {:trigger bins[d]} | 0 <= d < c :: bins[b] <= bins[d]
    {
      if bins[c] < bins[b] {
        b := c;
      }
    }
  }

  /** One of the bins weighs x at least. */
  ghost predicate Reaches(bins: seq<int>, x: int) {
    exists i {:trigger bins[i]} :: 0 <= i < |bins| && x <= bins[i]
  }

  /** Taking away a lightest bin, but not the last one, leaves one that is as heavy. */
  lemma LightestTaken(bins: seq<int>, b: nat, x: int)
    requires |bins| > 1 && b < |bins| && Reaches(bins, x)
    requires forall c {:trigger bins[c]} | 0 <= c < |bins| :: bins[b] <= bins[c]
    ensures Reaches(bins[..b] + bins[b + 1..], x)
  {
    var rest := bins[..b] + bins[b + 1..];
    var i :| 0 <= i < |bins| && x <= bins[i];
    var j := if i != b then i else if b == 0 then 1 else b - 1;
    assert bins[b] <= bins[j];
    assert rest[if j < b then j else j - 1] == bins[j];
  }

  /** The bin that is left when lightest bins are taken away until there is only one. */
  method Heaviest(bins: seq<int>) returns (m: int)
    requires bins != []
    ensures m in bins && forall c {:trigger bins[c]} | 0 <= c < |bins| :: bins[c] <= m
  {
    var rest := bins;
    while |rest| > 1
      invariant rest != [] && forall x | x in rest :: x in bins
      invariant forall c {:trigger bins[c]} | 0 <= c < |bins| :: Reaches(rest, bins[c])
      decreases |rest|
    {
      var b := Lightest(rest);
      forall c | 0 <= c < |bins| ensures Reaches(rest[..b] + rest[b + 1..], bins[c]) {
        LightestTaken(rest, b, bins[c]);
      }
      rest := rest[..b] + rest[b + 1..];
    }
    m := rest[0];
    assert m in rest;
  }

  /** The largest weight of all. */
  function HeaviestOf(jobs: seq<nat>): nat {
    if jobs == [] then 0
    else if jobs[0] < HeaviestOf(jobs[1..]) then HeaviestOf(jobs[1..]) else jobs[0]
  }

  lemma {:induction false} NoneHeavier(jobs: seq<nat>)
    ensures forall w | w in jobs :: w <= HeaviestOf(jobs)
    ensures jobs != [] ==> HeaviestOf(jobs) in jobs
  {
    if jobs != [] {
      NoneHeavier(jobs[1..]);
      forall w | w in jobs ensures w <= HeaviestOf(jobs) {
        var i :| 0 <= i < |jobs| && jobs[i] == w;
        if i > 0 {
          assert jobs[1..][i - 1] == w && w in jobs[1..];
        }
      }
    }
  }

  /** Not above the average by more than what one node of weight x accounts for. */
  predicate NearAverage(load: int, total: int, k: nat, x: nat) {
    k * load <= total + (k - 1) * x
  }

  lemma Times(a: nat, x: nat, y: nat)
    requires x <= y
    ensures a * x <= a * y
  {
    assert a * (y - x) >= 0;
  }

  lemma NearAverageStep(m: int, w: nat, total: int, k: nat, x: nat)
    requires k > 0 && k * m <= total && w <= x
    ensures NearAverage(m + w, total + w, k, x)
  {
    calc {
      k * (m + w);
      k * m + (k - 1) * w + w;
    <= { Times(k - 1, w, x); }
      total + w + (k - 1) * x;
    }
  }

  /** Each job is on a bin that was a lightest one with the jobs before it. */
  ghost predicate OntoLightest(jobs: seq<nat>, a: seq<nat>, k: nat) {
    && Assigns(a, |jobs|, k)
    && forall t, c {:trigger Load(jobs[..t], a[..t], c)} | 0 <= t < |jobs| && 0 <= c < k ::
         Load(jobs[..t], a[..t], a[t]) <= Load(jobs[..t], a[..t], c)
  }

  lemma NextOntoLightest(jobs: seq<nat>, a: seq<nat>, k: nat, w: nat, b: nat)
    requires OntoLightest(jobs, a, k) && b < k
    requires forall c {:trigger Load(jobs, a, c)} | 0 <= c < k :: Load(jobs, a, b) <= Load(jobs, a, c)
    ensures OntoLightest(jobs + [w], a + [b], k)
  {
    var jobs', a' := jobs + [w], a + [b];
    forall t, c {:trigger Load(jobs'[..t], a'[..t], c)} | 0 <= t < |jobs'| && 0 <= c < k
      ensures Load(jobs'[..t], a'[..t], a'[t]) <= Load(jobs'[..t], a'[..t], c)
    {
      assert jobs'[..t] == jobs[..t] && a'[..t] == a[..t];
      if t == |jobs| {
        assert jobs[..t] == jobs && a[..t] == a;
      }
    }
  }

  /** The same loads, on the bins in another order. */
  ghost predicate SameLoads(jobs: seq<nat>, a: seq<nat>, a': seq<nat>, k: nat)
    requires |a| == |a'| == |jobs|
  {
    multiset(Loads(jobs, a, k)) == multiset(Loads(jobs, a', k))
  }

  lemma LightestLoad(s: seq<int>, s': seq<int>, b: nat, b': nat)
    requires multiset(s) == multiset(s') && b < |s| && b' < |s'|
    requires forall c {:trigger s[c]} | 0 <= c < |s| :: s[b] <= s[c]
    requires forall c {:trigger s'[c]} | 0 <= c < |s'| :: s'[b'] <= s'[c]
    ensures s[b] == s'[b']
  {
    assert s[b] in multiset(s') && s'[b'] in multiset(s);
    assert s[b] in s' && s'[b'] in s;
  }

  lemma RaisedAlike(s: seq<int>, s': seq<int>, b: nat, b': nat, w: nat)
    requires multiset(s) == multiset(s') && b < |s| && b' < |s'| && s[b] == s'[b']
    ensures multiset(s[b := s[b] + w]) == multiset(s'[b' := s'[b'] + w])
  {
    assert multiset(s[b := s[b] + w]) == multiset(s) - multiset{s[b]} + multiset{s[b] + w};
    assert multiset(s'[b' := s'[b'] + w]) == multiset(s') - multiset{s'[b']} + multiset{s'[b'] + w};
  }

  /** It makes no difference which of several lightest bins is taken. */
  lemma {:induction false} LightestBinsAlike(jobs: seq<nat>, a: seq<nat>, a': seq<nat>, k: nat)
    requires OntoLightest(jobs, a, k) && OntoLightest(jobs, a', k)
    ensures SameLoads(jobs, a, a', k)
    decreases |jobs|
  {
    if jobs == [] {
      assert a == a' == [];
    } else {
      var n := |jobs| - 1;
      FirstOntoLightest(jobs, a, k);
      FirstOntoLightest(jobs, a', k);
      LightestBinsAlike(jobs[..n], a[..n], a'[..n], k);
      var s, s' := Loads(jobs[..n], a[..n], k), Loads(jobs[..n], a'[..n], k);
      LastLoads(jobs, a, k);
      LastLoads(jobs, a', k);
      LightestLoad(s, s', a[n], a'[n]);
      RaisedAlike(s, s', a[n], a'[n], jobs[n]);
    }
  }

  lemma FirstOntoLightest(jobs: seq<nat>, a: seq<nat>, k: nat)
    requires OntoLightest(jobs, a, k) && jobs != []
    ensures var n := |jobs| - 1;
            && OntoLightest(jobs[..n], a[..n], k)
            && forall c {:trigger Load(jobs[..n], a[..n], c)} | 0 <= c < k ::
                 Load(jobs[..n], a[..n], a[n]) <= Load(jobs[..n], a[..n], c)
  {
    var n := |jobs| - 1;
    forall t, c {:trigger Load(jobs[..n][..t], a[..n][..t], c)} | 0 <= t < n && 0 <= c < k
      ensures Load(jobs[..n][..t], a[..n][..t], a[..n][t]) <= Load(jobs[..n][..t], a[..n][..t], c)
    {
      assert jobs[..n][..t] == jobs[..t] && a[..n][..t] == a[..t];
    }
  }

  lemma WithoutFirst(s: seq<nat>)
    requires s != []
    ensures multiset(s[1..]) == multiset(s) - multiset{s[0]}
  {
    assert s == [s[0]] + s[1..];
  }

  /** There is only one descending order. */
  lemma {:induction false} DescendingIsUnique(s: seq<nat>, t: seq<nat>)
    requires multiset(s) == multiset(t) && Descending(s) && Descending(t)
    ensures s == t
    decreases |s|
  {
    assert |multiset(s)| == |s| && |multiset(t)| == |t|;
    if s != [] {
      assert s[0] == t[0] by {
        assert s[0] in multiset(t) && t[0] in multiset(s);
        assert s[0] in t && t[0] in s;
      }
      WithoutFirst(s);
      WithoutFirst(t);
      DescendingIsUnique(s[1..], t[1..]);
    }
  }

  /** m is the largest load. */
  ghost predicate HeaviestLoad(jobs: seq<nat>, a: seq<nat>, k: nat, m: int)
    requires |a| == |jobs|
  {
    m in Loads(jobs, a, k) && forall b {:trigger Load(jobs, a, b)} | 0 <= b < k :: Load(jobs, a, b) <= m
  }

  /** The rule of the longest processing time: m is the largest load if the jobs are placed
      in descending order, each onto a lightest bin. */
  ghost predicate ByRule(weights: seq<nat>, jobs: seq<nat>, a: seq<nat>, k: nat) {
    Descending(jobs) && multiset(jobs) == multiset(weights) && OntoLightest(jobs, a, k)
  }

  /** Whatever the bins taken, the rule ends with the same largest load. */
  lemma RuleIsDeterminate(weights: seq<nat>, jobs: seq<nat>, a: seq<nat>, jobs': seq<nat>, a': seq<nat>, k: nat, m: int)
    requires ByRule(weights, jobs, a, k) && ByRule(weights, jobs', a', k) && HeaviestLoad(jobs, a, k, m)
    ensures HeaviestLoad(jobs', a', k, m)
  {
    DescendingIsUnique(jobs, jobs');
    LightestBinsAlike(jobs, a, a', k);
    var s, s' := Loads(jobs, a, k), Loads(jobs, a', k);
    assert m in multiset(s');
    forall b | 0 <= b < k ensures Load(jobs, a', b) <= m {
      assert s'[b] in multiset(s);
      var c :| 0 <= c < k && s[c] == s'[b];
      assert Load(jobs, a, c) <= m;
    }
  }

  /** The first t jobs have been placed. For every limit that all jobs fit, they keep
      Graham's bound. */
  ghost predicate Packing(jobs: seq<nat>, t: nat, k: nat, lpt: seq<nat>, bins: seq<int>) {
    && t <= |jobs| && Assigns(lpt, t, k) && bins == Loads(jobs[..t], lpt, k)
    && OntoLightest(jobs[..t], lpt, k)
    && (forall b {:trigger bins[b]} | 0 <= b < k :: NearAverage(bins[b], Sum(jobs[..t]), k, HeaviestOf(jobs)))
    && forall opt, l {:trigger Fits(jobs, opt, k, l)} | Fits(jobs, opt, k, l) :: Graham(jobs[..t], lpt, k, l)
  }

  lemma PackingBegins(jobs: seq<nat>, k: nat)
    requires k > 0
    ensures Packing(jobs, 0, k, [], seq(k, _ => 0))
  {
    assert jobs[..0] == [];
    forall b | 0 <= b < k ensures Load([], [], b) == 0 {
      NoJobs(b);
    }
    assert Loads([], [], k) == seq(k, _ => 0);
    assert 0 <= (k - 1) * HeaviestOf(jobs);
    forall opt, l | Fits(jobs, opt, k, l) ensures Graham(jobs[..0], [], k, l) {
      BelowLimit(0, k, l);
    }
  }

  lemma PackingProceeds(jobs: seq<nat>, t: nat, k: nat, lpt: seq<nat>, bins: seq<int>, b: nat)
    requires Packing(jobs, t, k, lpt, bins) && t < |jobs| && Descending(jobs)
    requires b < k && forall c {:trigger bins[c]} | 0 <= c < k :: bins[b] <= bins[c]
    ensures Packing(jobs, t + 1, k, lpt + [b], bins[b := bins[b] + jobs[t]])
  {
    assert jobs[..t + 1] == jobs[..t] + [jobs[t]];
    forall c {:trigger bins[c]} | 0 <= c < k
      ensures Load(jobs[..t + 1], lpt + [b], c) == bins[b := bins[b] + jobs[t]][c]
    {
      OneMoreJob(jobs[..t], lpt, jobs[t], b, c);
      assert bins[c] == Load(jobs[..t], lpt, c);
    }
    assert Loads(jobs[..t + 1], lpt + [b], k) == bins[b := bins[b] + jobs[t]];
    forall c | 0 <= c < k ensures Load(jobs[..t], lpt, b) <= Load(jobs[..t], lpt, c) {
      assert bins[b] <= bins[c];
    }
    NextOntoLightest(jobs[..t], lpt, k, jobs[t], b);
    LightestBelowAverage(jobs[..t], lpt, k, b);
    SumSnoc(jobs[..t], jobs[t]);
    NoneHeavier(jobs);
    assert jobs[t] in jobs;
    NearAverageStep(bins[b], jobs[t], Sum(jobs[..t]), k, HeaviestOf(jobs));
    forall c {:trigger bins[c]} | 0 <= c < k
      ensures NearAverage(bins[b := bins[b] + jobs[t]][c], Sum(jobs[..t + 1]), k, HeaviestOf(jobs))
    {
      assert NearAverage(bins[c], Sum(jobs[..t]), k, HeaviestOf(jobs));
    }
    forall opt, l | Fits(jobs, opt, k, l) ensures Graham(jobs[..t + 1], lpt + [b], k, l) {
      assert Graham(jobs[..t], lpt, k, l);
      PrefixFits(jobs, opt, k, l, t + 1);
      GrahamStep(jobs[..t], jobs[t], lpt, opt[..t + 1], k, l, b);
    }
  }

  lemma {:induction false} SomeLightest(bins: seq<int>) returns (b: nat)
    requires bins != []
    ensures b < |bins| && forall c {:trigger bins[c]} | 0 <= c < |bins| :: bins[b] <= bins[c]
  {
    if |bins| == 1 {
      b := 0;
    } else {
      var n := |bins| - 1;
      b := SomeLightest(bins[..n]);
      forall c | 0 <= c < n ensures bins[b] <= bins[c] {
        assert bins[..n][b] <= bins[..n][c];
      }
      b := if bins[n] < bins[b] then n else b;
    }
  }

  lemma {:induction false} ExpandedSplits(d: seq<Entry>, e: nat)
    requires e <= |d|
    ensures Expanded(d) == Expanded(d[..e]) + Expanded(d[e..])
  {
    if e == 0 {
      assert d[e..] == d;
    } else {
      ExpandedSplits(d[1..], e - 1);
      assert d[..e][1..] == d[1..][..e - 1] && d[e..] == d[1..][e - 1..];
    }
  }

  /** The jobs from position t on that come from one entry. */
  lemma EntryJobs(d: seq<Entry>, e: nat)
    requires e < |d|
    ensures var t := |Expanded(d[..e])|;
            && |Expanded(d[..e + 1])| == t + d[e].count <= |Expanded(d)|
            && forall i {:trigger Expanded(d)[i]} | t <= i < t + d[e].count :: Expanded(d)[i] == d[e].weight
  {
    ExpandedSplits(d, e);
    ExpandedSplits(d[..e + 1], e);
    assert d[..e + 1][..e] == d[..e] && d[..e + 1][e..] == [d[e]];
    assert Expanded([d[e]]) == Repeated(d[e].weight, d[e].count) + [];
    assert d[e..][0] == d[e];
    assert Expanded(d[e..]) == Repeated(d[e].weight, d[e].count) + Expanded(d[e..][1..]);
  }

  /** Places the nodes of one entry; nodes without weight are left out, as if they were on
      some lightest bin. */
  method PlaceNodes(weight: nat, count: nat, bins: seq<int>, ghost jobs: seq<nat>, ghost t: nat, ghost k: nat,
                    ghost lpt: seq<nat>)
    returns (bins': seq<int>, ghost lpt': seq<nat>)
    requires Packing(jobs, t, k, lpt, bins) && Descending(jobs) && k > 0
    requires t + count <= |jobs| && forall i {:trigger jobs[i]} | t <= i < t + count :: jobs[i] == weight
    ensures Packing(jobs, t + count, k, lpt', bins')
  {
    bins', lpt' := bins, lpt;
    if weight == 0 {
      lpt' := LeaveOut(count, bins, jobs, t, k, lpt);
      return;
    }
    for i: nat := 0 to count
      invariant Packing(jobs, t + i, k, lpt', bins')
    {
      var b := Lightest(bins');
      PackingProceeds(jobs, t + i, k, lpt', bins', b);
      assert jobs[t + i] == weight;
      bins' := bins'[b := bins'[b] + weight];
      lpt' := lpt' + [b];
    }
  }

  lemma {:induction false} LeaveOut(count: nat, bins: seq<int>, jobs: seq<nat>, t: nat, k: nat, lpt: seq<nat>)
    returns (lpt': seq<nat>)
    requires Packing(jobs, t, k, lpt, bins) && Descending(jobs) && k > 0
    requires t + count <= |jobs| && forall i {:trigger jobs[i]} | t <= i < t + count :: jobs[i] == 0
    ensures Packing(jobs, t + count, k, lpt', bins)
    decreases count
  {
    if count == 0 {
      lpt' := lpt;
    } else {
      lpt' := LeaveOut(count - 1, bins, jobs, t, k, lpt);
      var b := SomeLightest(bins);
      PackingProceeds(jobs, t + count - 1, k, lpt', bins, b);
      assert jobs[t + count - 1] == 0 && bins[b := bins[b]] == bins;
      lpt' := lpt' + [b];
    }
  }

  /** Packs all nodes. */
  method PackNodes(distribution: seq<Entry>, k: nat) returns (bins: seq<int>, ghost lpt: seq<nat>)
    requires k > 0 && HeaviestFirst(distribution)
    ensures Packing(Expanded(distribution), |Expanded(distribution)|, k, lpt, bins)
  {
    ghost var jobs := Expanded(distribution);
    ExpandedDescends(distribution);
    PackingBegins(jobs, k);
    bins, lpt := seq(k, _ => 0), [];
    for e := 0 to |distribution|
      invariant |Expanded(distribution[..e])| <= |jobs|
      invariant Packing(jobs, |Expanded(distribution[..e])|, k, lpt, bins)
    {
      EntryJobs(distribution, e);
      bins, lpt := PlaceNodes(distribution[e].weight, distribution[e].count, bins, jobs, |Expanded(distribution[..e])|,
                              k, lpt);
    }
    assert distribution[..|distribution|] == distribution;
  }

  lemma SameHeaviest(s: seq<nat>, t: seq<nat>)
    requires multiset(s) == multiset(t)
    ensures HeaviestOf(s) == HeaviestOf(t)
  {
    NoneHeavier(s);
    NoneHeavier(t);
    forall w: nat ensures w in s <==> w in t {
      assert w in multiset(s) <==> w in multiset(t);
    }
    assert |multiset(s)| == |s| && |multiset(t)| == |t|;
  }

  lemma {:induction false} SameSum(s: seq<nat>, t: seq<nat>)
    requires multiset(s) == multiset(t)
    ensures Sum(s) == Sum(t)
  {
    var a: seq<nat> := seq(|s|, _ => 0);
    var a' := Rearranged(s, t, a, 1);
    LoadsAddUp(s, a, 1);
    LoadsAddUp(t, a', 1);
    assert Loads(t, a', 1)[0] == Load(t, a', 0) == Load(s, a, 0) == Loads(s, a, 1)[0];
    assert Loads(t, a', 1) == Loads(s, a, 1);
  }

  lemma AverageBound(weights: seq<nat>, jobs: seq<nat>, k: nat, lpt: seq<nat>, bins: seq<int>, b: nat)
    requires multiset(jobs) == multiset(weights) && Packing(jobs, |jobs|, k, lpt, bins) && b < k
    ensures k * bins[b] <= Sum(weights) + (k - 1) * HeaviestOf(weights)
  {
    assert jobs[..|jobs|] == jobs;
    SameHeaviest(jobs, weights);
    SameSum(jobs, weights);
    assert NearAverage(bins[b], Sum(jobs), k, HeaviestOf(jobs));
  }

  lemma PackedBound(weights: seq<nat>, jobs: seq<nat>, k: nat, lpt: seq<nat>, bins: seq<int>, m: int, opt: seq<nat>,
                    l: nat)
    requires multiset(jobs) == multiset(weights) && Packing(jobs, |jobs|, k, lpt, bins) && m in bins
    requires Fits(weights, opt, k, l)
    ensures WithinFourThirds(m, k, l)
  {
    var opt' := Rearranged(weights, jobs, opt, k);
    forall b | 0 <= b < k ensures Load(jobs, opt', b) <= l {
      assert Load(weights, opt, b) <= l;
    }
    assert Fits(jobs, opt', k, l);
    assert jobs[..|jobs|] == jobs;
    var b :| 0 <= b < |bins| && bins[b] == m;
    assert WithinFourThirds(Load(jobs, lpt, b), k, l);
  }

  /** The weight of the heaviest block: the one that the rule leads to, that of an actual
      assignment of all nodes, and within 4/3 - 1/(3k) times the heaviest block of any other
      assignment. */
  method MaxPartByLPT(weights: seq<nat>, k: nat) returns (m: int, ghost a: seq<nat>)
    requires k > 0
    ensures exists jobs, lpt {:trigger ByRule(weights, jobs, lpt, k)} :: ByRule(weights, jobs, lpt, k)
    ensures forall jobs, lpt {:trigger ByRule(weights, jobs, lpt, k)} | ByRule(weights, jobs, lpt, k) ::
              HeaviestLoad(jobs, lpt, k, m)
    ensures Assigns(a, |weights|, k) && HeaviestLoad(weights, a, k, m)
    ensures k * m <= Sum(weights) + (k - 1) * HeaviestOf(weights)
    ensures forall opt, l {:trigger Fits(weights, opt, k, l)} | Fits(weights, opt, k, l) :: WithinFourThirds(m, k, l)
  {
    var distribution := WeightDistribution(weights);
    ghost var jobs, lpt := Expanded(distribution), [];
    var bins;
    bins, lpt := PackNodes(distribution, k);
    m := Heaviest(bins);
    assert jobs[..|jobs|] == jobs;
    a := Rearranged(jobs, weights, lpt, k);
    assert Loads(weights, a, k) == bins;
    var h: nat :| h < |bins| && bins[h] == m;
    forall b | 0 <= b < k ensures Load(weights, a, b) <= m && Load(jobs, lpt, b) <= m {
      assert bins[b] <= m;
    }
    ExpandedDescends(distribution);
    assert ByRule(weights, jobs, lpt, k);
    forall jobs', lpt' | ByRule(weights, jobs', lpt', k) ensures HeaviestLoad(jobs', lpt', k, m) {
      RuleIsDeterminate(weights, jobs, lpt, jobs', lpt', k, m);
    }
    AverageBound(weights, jobs, k, lpt, bins, h);
    forall opt, l | Fits(weights, opt, k, l) ensures WithinFourThirds(m, k, l) {
      PackedBound(weights, jobs, k, lpt, bins, m, opt, l);
    }
  }
}
