/**
  Longest-processing-time scheduling, apart from the strings it is applied to: jobs are
  indices into a sequence of costs, a schedule names the machine of each job.
 */
module Scheduling {

  ghost predicate IsSchedule(machine: seq<nat>, m: nat) {
    forall j | 0 <= j < |machine| :: machine[j] < m
  }

  ghost predicate NonNegative(cost: seq<real>) {
    forall j | 0 <= j < |cost| :: cost[j] >= 0.0
  }

  ghost predicate NonIncreasing(cost: seq<real>) {
    forall i, j | 0 <= i < j < |cost| :: cost[i] >= cost[j]
  }

  /** What the jobs placed on machine `i` cost together. */
  function Load(machine: seq<nat>, cost: seq<real>, i: nat): real
    requires |machine| == |cost|
  {
    if machine == [] then 0.0
    else
      var n := |machine| - 1;
      Load(machine[..n], cost[..n], i) + if machine[n] == i then cost[n] else 0.0
  }

  /** How many jobs are placed on machine `i`. */
  function Jobs(machine: seq<nat>, i: nat): nat {
    if machine == [] then 0
    else
      var n := |machine| - 1;
      Jobs(machine[..n], i) + if machine[n] == i then 1 else 0
  }

  function Total(cost: seq<real>): real {
    if cost == [] then 0.0 else Total(cost[..|cost| - 1]) + cost[|cost| - 1]
  }

  function SumLoads(machine: seq<nat>, cost: seq<real>, m: nat): real
    requires |machine| == |cost|
  {
    if m == 0 then 0.0 else SumLoads(machine, cost, m - 1) + Load(machine, cost, m - 1)
  }

  /** Every job went to a machine that was least loaded when the job was placed. */
  ghost predicate Greedy(machine: seq<nat>, cost: seq<real>, m: nat)
    requires |machine| == |cost|
  {
    IsSchedule(machine, m) && forall k: nat | k < |machine| :: PlacedLeast(machine, cost, m, k)
  }

  /** Job `k` went to a machine no more loaded than any other at that moment. */
  ghost predicate PlacedLeast(machine: seq<nat>, cost: seq<real>, m: nat, k: nat)
    requires k < |machine| == |cost|
  {
    forall i: nat | i < m :: Load(machine[..k], cost[..k], machine[k]) <= Load(machine[..k], cost[..k], i)
  }

  /** Schedule `machine` finishes within `bound` on each of its `m` machines. */
  ghost predicate Within(machine: seq<nat>, cost: seq<real>, m: nat, bound: real)
    requires |machine| == |cost|
  {
    forall i: nat | i < m :: Load(machine, cost, i) <= bound
  }

  /** At most (4/3 - 1/(3m)) times `bound`. */
  ghost predicate WithinFourThirds(load: real, m: nat, bound: real) {
    3.0 * m as real * load <= (4 * m - 1) as real * bound
  }

  /** At most the average of `total` over `m` machines plus (1 - 1/m) times `largest`. */
  ghost predicate NearAverage(load: real, m: nat, total: real, largest: real) {
    m as real * load <= total + (m - 1) as real * largest
  }

  // ----- Sums -----

  lemma {:induction false} LoadStep(machine: seq<nat>, cost: seq<real>, m: nat)
    requires |machine| == |cost| > 0
    ensures var n := |machine| - 1;
            SumLoads(machine, cost, m)
            == SumLoads(machine[..n], cost[..n], m) + if machine[n] < m then cost[n] else 0.0
  {
    if m > 0 { LoadStep(machine, cost, m - 1); }
  }

  lemma {:induction false} NoJobs(m: nat)
    ensures SumLoads([], [], m) == 0.0
  {
    if m > 0 { NoJobs(m - 1); }
  }

  /** Double counting: the machines together carry exactly the jobs. */
  lemma {:induction false} LoadsSumToTotal(machine: seq<nat>, cost: seq<real>, m: nat)
    requires |machine| == |cost| && IsSchedule(machine, m)
    ensures SumLoads(machine, cost, m) == Total(cost)
  {
    if machine == [] {
      NoJobs(m);
    } else {
      var n := |machine| - 1;
      LoadStep(machine, cost, m);
      LoadsSumToTotal(machine[..n], cost[..n], m);
    }
  }

  lemma {:induction false} SumAtMost(machine: seq<nat>, cost: seq<real>, m: nat, c: real)
    requires |machine| == |cost| && Within(machine, cost, m, c)
    ensures SumLoads(machine, cost, m) <= m as real * c
  {
    if m > 0 {
      SumAtMost(machine, cost, m - 1, c);
      assert m as real * c == (m - 1) as real * c + c;
    }
  }

  lemma {:induction false} SumAtLeast(machine: seq<nat>, cost: seq<real>, m: nat, c: real)
    requires |machine| == |cost| && forall i: nat | i < m :: Load(machine, cost, i) >= c
    ensures SumLoads(machine, cost, m) >= m as real * c
  {
    if m > 0 {
      SumAtLeast(machine, cost, m - 1, c);
      assert m as real * c == (m - 1) as real * c + c;
    }
  }

  lemma {:induction false} LoadNonNegative(machine: seq<nat>, cost: seq<real>, i: nat)
    requires |machine| == |cost| && NonNegative(cost)
    ensures Load(machine, cost, i) >= 0.0
  {
    if machine != [] {
      var n := |machine| - 1;
      LoadNonNegative(machine[..n], cost[..n], i);
    }
  }

  lemma DropLast(machine: seq<nat>, cost: seq<real>, m: nat)
    requires |machine| == |cost| > 0 && NonNegative(cost) && IsSchedule(machine, m)
    ensures var n := |machine| - 1; IsSchedule(machine[..n], m) && NonNegative(cost[..n])
    ensures var n := |machine| - 1;
            forall i: nat :: Load(machine[..n], cost[..n], i) <= Load(machine, cost, i)
  {
  }

  lemma GreedyPrefix(machine: seq<nat>, cost: seq<real>, m: nat)
    requires |machine| == |cost| > 0 && Greedy(machine, cost, m)
    ensures var n := |machine| - 1; Greedy(machine[..n], cost[..n], m)
  {
    var n := |machine| - 1;
    forall k: nat | k < n ensures PlacedLeast(machine[..n], cost[..n], m, k) {
      assert machine[..n][..k] == machine[..k] && cost[..n][..k] == cost[..k];
      assert PlacedLeast(machine, cost, m, k);
    }
  }

  // ----- When every job exceeds a third of the rival's finishing time -----

  /** 2 for a job too big to share a machine with a job of size `q`, 1 for any other job. */
  function Weights(cost: seq<real>, bound: real, q: real): (w: seq<real>)
    ensures |w| == |cost|
  {
    seq(|cost|, j requires 0 <= j < |cost| => if cost[j] > bound - q then 2.0 else 1.0)
  }

  lemma WeightsPrefix(cost: seq<real>, bound: real, q: real)
    requires cost != []
    ensures Weights(cost, bound, q)[..|cost| - 1] == Weights(cost[..|cost| - 1], bound, q)
  {
  }

  /** A machine that finishes by `bound` carries weight at most 2. */
  lemma {:induction false} LightWeight(machine: seq<nat>, cost: seq<real>, i: nat, bound: real, q: real)
    requires |machine| == |cost| && q >= 0.0 && 3.0 * q > bound
    requires forall j | 0 <= j < |cost| :: cost[j] >= q
    requires Load(machine, cost, i) <= bound
    ensures var w := Load(machine, Weights(cost, bound, q), i);
            || w == 0.0
            || (w == 1.0 && Load(machine, cost, i) >= q)
            || (w == 2.0 && Load(machine, cost, i) > bound - q)
  {
    if machine != [] {
      var n := |machine| - 1;
      WeightsPrefix(cost, bound, q);
      LightWeight(machine[..n], cost[..n], i, bound, q);
      LoadNonNegative(machine[..n], cost[..n], i);
    }
  }

  /** A machine that cannot take one more job of size `q` carries weight at least 2. */
  lemma {:induction false} HeavyWeight(machine: seq<nat>, cost: seq<real>, i: nat, bound: real, q: real)
    requires |machine| == |cost| && q <= bound
    ensures var w := Load(machine, Weights(cost, bound, q), i);
            || (w == 0.0 && Load(machine, cost, i) == 0.0)
            || (w == 1.0 && Load(machine, cost, i) <= bound - q)
            || w >= 2.0
  {
    if machine != [] {
      var n := |machine| - 1;
      WeightsPrefix(cost, bound, q);
      HeavyWeight(machine[..n], cost[..n], i, bound, q);
    }
  }

  /** If some machine of a schedule within `bound` holds job `j`, that job fits in `bound`. */
  lemma {:induction false} JobFits(machine: seq<nat>, cost: seq<real>, j: nat)
    requires |machine| == |cost| && NonNegative(cost) && j < |cost|
    ensures cost[j] <= Load(machine, cost, machine[j])
  {
    var n := |machine| - 1;
    if j == n {
      LoadNonNegative(machine[..n], cost[..n], machine[j]);
    } else {
      JobFits(machine[..n], cost[..n], j);
    }
  }

  ghost predicate AtLeast(machine: seq<nat>, cost: seq<real>, m: nat, c: real)
    requires |machine| == |cost|
  {
    forall i: nat | i < m :: Load(machine, cost, i) >= c
  }

  lemma AllLight(rival: seq<nat>, cost: seq<real>, m: nat, bound: real, w: seq<real>)
    requires |rival| == |cost| > 0 && NonNegative(cost) && NonIncreasing(cost)
    requires Within(rival, cost, m, bound) && 3.0 * cost[|cost| - 1] > bound
        && w == Weights(cost, bound, cost[|cost| - 1])
    ensures Within(rival, w, m, 2.0)
  {
    forall i: nat | i < m ensures Load(rival, w, i) <= 2.0 {
      LightWeight(rival, cost, i, bound, cost[|cost| - 1]);
    }
  }

  /** If the last job does not fit, every machine was too full to take it. */
  lemma AllHeavy(machine: seq<nat>, cost: seq<real>, m: nat, bound: real, w: seq<real>)
    requires |machine| == |cost| > 0 && Greedy(machine, cost, m) && cost[|cost| - 1] <= bound
    requires Load(machine, cost, machine[|machine| - 1]) > bound && w == Weights(cost, bound, cost[|cost| - 1])
    ensures AtLeast(machine[..|machine| - 1], w[..|w| - 1], m, 2.0)
  {
    var n, q := |machine| - 1, cost[|cost| - 1];
    WeightsPrefix(cost, bound, q);
    assert PlacedLeast(machine, cost, m, n);
    forall i: nat | i < m ensures Load(machine[..n], w[..n], i) >= 2.0 {
      HeavyWeight(machine[..n], cost[..n], i, bound, q);
    }
  }

  /** A rival that carries the last job too would need weight the other schedule already fills. */
  lemma NoWeightLeft(machine: seq<nat>, rival: seq<nat>, w: seq<real>, m: nat)
    requires |machine| == |rival| == |w| > 0 && IsSchedule(machine, m) && IsSchedule(rival, m)
    requires Within(rival, w, m, 2.0) && AtLeast(machine[..|machine| - 1], w[..|w| - 1], m, 2.0)
    ensures w[|w| - 1] <= 0.0
  {
    var n := |machine| - 1;
    SumAtMost(rival, w, m, 2.0);
    SumAtLeast(machine[..n], w[..n], m, 2.0);
    LoadsSumToTotal(rival, w, m);
    LoadsSumToTotal(machine[..n], w[..n], m);
  }

  /** A last job bigger than a third of the bound is placed within the bound. */
  lemma LastBigJobFits(machine: seq<nat>, cost: seq<real>, m: nat, rival: seq<nat>, bound: real)
    requires |machine| == |cost| == |rival| > 0
    requires NonNegative(cost) && NonIncreasing(cost) && Greedy(machine, cost, m)
    requires IsSchedule(rival, m) && Within(rival, cost, m, bound)
    requires 3.0 * cost[|cost| - 1] > bound
    ensures Load(machine, cost, machine[|machine| - 1]) <= bound
  {
    var n := |machine| - 1;
    JobFits(rival, cost, n);
    if Load(machine, cost, machine[n]) > bound {
      var w := Weights(cost, bound, cost[n]);
      AllLight(rival, cost, m, bound, w);
      AllHeavy(machine, cost, m, bound, w);
      NoWeightLeft(machine, rival, w, m);
    }
  }

  // ----- The bounds -----

  /** List-scheduling bound: average load plus all but one m-th of the largest job. */
  lemma {:induction false} ListBound(machine: seq<nat>, cost: seq<real>, m: nat, largest: real, i: nat)
    requires |machine| == |cost| && NonNegative(cost) && Greedy(machine, cost, m) && i < m
    requires largest >= 0.0 && forall j | 0 <= j < |cost| :: cost[j] <= largest
    ensures NearAverage(Load(machine, cost, i), m, Total(cost), largest)
  {
    if machine != [] {
      var n := |machine| - 1;
      GreedyPrefix(machine, cost, m);
      if machine[n] == i {
        LastPlacement(machine, cost, m);
        NearAverageGrows(Load(machine, cost, i), m, Total(cost), cost[n], largest);
      } else {
        ListBound(machine[..n], cost[..n], m, largest, i);
      }
    }
  }

  lemma NearAverageGrows(load: real, m: nat, total: real, x: real, y: real)
    requires m > 0 && x <= y && NearAverage(load, m, total, x)
    ensures NearAverage(load, m, total, y)
  {
    Scale(m - 1, x, y);
  }

  /** The machine that receives the last job, measured against the total. */
  lemma LastPlacement(machine: seq<nat>, cost: seq<real>, m: nat)
    requires |machine| == |cost| > 0 && Greedy(machine, cost, m)
    ensures var n := |machine| - 1;
            NearAverage(Load(machine, cost, machine[n]), m, Total(cost), cost[n])
  {
    var n := |machine| - 1;
    var least := Load(machine[..n], cost[..n], machine[n]);
    forall i: nat | i < m ensures Load(machine[..n], cost[..n], i) >= least {
      assert PlacedLeast(machine, cost, m, n);
    }
    SumAtLeast(machine[..n], cost[..n], m, least);
    LoadsSumToTotal(machine[..n], cost[..n], m);
    AverageAndLast(m, least, cost[n], Total(cost[..n]));
  }

  lemma AverageAndLast(m: nat, least: real, last: real, earlier: real)
    requires m as real * least <= earlier
    ensures NearAverage(least + last, m, earlier + last, last)
  {
    assert m as real * (least + last) == m as real * least + m as real * last;
    assert (m - 1) as real * last == m as real * last - last;
  }

  lemma Scale(k: nat, x: real, y: real)
    requires x <= y
    ensures k as real * x <= k as real * y
  {
  }

  /**
    Graham's bound. Jobs taken longest first, each to a least-loaded machine, finish within
    4/3 - 1/(3m) of any other schedule on the same `m` machines.
   */
  lemma {:induction false} LongestFirstBound(
      machine: seq<nat>, cost: seq<real>, m: nat, rival: seq<nat>, bound: real, i: nat)
    requires |machine| == |cost| == |rival| && i < m
    requires NonNegative(cost) && NonIncreasing(cost) && Greedy(machine, cost, m)
    requires IsSchedule(rival, m) && Within(rival, cost, m, bound)
    ensures WithinFourThirds(Load(machine, cost, i), m, bound)
  {
    LoadNonNegative(rival, cost, i);
    if machine == [] {
      Scale(4 * m - 1, 0.0, bound);
    } else {
      var n := |machine| - 1;
      DropLast(rival, cost, m);
      GreedyPrefix(machine, cost, m);
      if machine[n] == i {
        LastMachineBound(machine, cost, m, rival, bound);
      } else {
        LongestFirstBound(machine[..n], cost[..n], m, rival[..n], bound, i);
      }
    }
  }

  lemma LastMachineBound(machine: seq<nat>, cost: seq<real>, m: nat, rival: seq<nat>, bound: real)
    requires |machine| == |cost| == |rival| > 0
    requires NonNegative(cost) && NonIncreasing(cost) && Greedy(machine, cost, m)
    requires IsSchedule(rival, m) && Within(rival, cost, m, bound) && 0.0 <= bound
    ensures WithinFourThirds(Load(machine, cost, machine[|machine| - 1]), m, bound)
  {
    var n := |machine| - 1;
    if 3.0 * cost[n] > bound {
      LastBigJobFits(machine, cost, m, rival, bound);
      CombineBig(m, Load(machine, cost, machine[n]), bound);
    } else {
      RivalTotal(rival, cost, m, bound);
      LastPlacement(machine, cost, m);
      Combine(m, Load(machine, cost, machine[n]), bound, cost[n], Total(cost));
    }
  }

  lemma RivalTotal(rival: seq<nat>, cost: seq<real>, m: nat, bound: real)
    requires |rival| == |cost| && IsSchedule(rival, m) && Within(rival, cost, m, bound)
    ensures Total(cost) <= m as real * bound
  {
    LoadsSumToTotal(rival, cost, m);
    SumAtMost(rival, cost, m, bound);
  }

  lemma CombineBig(m: nat, load: real, bound: real)
    requires m > 0 && 0.0 <= bound && load <= bound
    ensures WithinFourThirds(load, m, bound)
  {
    Scale(m, load, bound);
    Scale(m - 1, 0.0, bound);
    assert (4 * m - 1) as real * bound == 3.0 * (m as real * bound) + (m - 1) as real * bound;
  }

  lemma Combine(m: nat, load: real, bound: real, last: real, total: real)
    requires m > 0 && 0.0 <= bound && 3.0 * last <= bound
    requires NearAverage(load, m, total, last) && total <= m as real * bound
    ensures WithinFourThirds(load, m, bound)
  {
    Scale(m - 1, 3.0 * last, bound);
    assert (m - 1) as real * (3.0 * last) == 3.0 * ((m - 1) as real * last);
    assert (4 * m - 1) as real * bound == 3.0 * (m as real * bound) + (m - 1) as real * bound;
  }

  lemma LoadAt(machine: seq<nat>, cost: seq<real>, k: nat, i: nat)
    requires k < |machine| == |cost|
    ensures Load(machine[..k + 1], cost[..k + 1], i)
         == Load(machine[..k], cost[..k], i) + if machine[k] == i then cost[k] else 0.0
    ensures Load(machine[..0], cost[..0], i) == 0.0
    ensures machine[..|machine|] == machine && cost[..|cost|] == cost
  {
    assert machine[..k + 1][..k] == machine[..k] && cost[..k + 1][..k] == cost[..k];
  }

  /** The bound is attained: on two machines, 3 3 2 2 2 finishes at 7 ... */
  lemma LongestFirstReachesSeven(machine: seq<nat>, cost: seq<real>)
    requires machine == [0, 1, 1, 0, 0] && cost == [3.0, 3.0, 2.0, 2.0, 2.0]
    ensures Greedy(machine, cost, 2) && NonIncreasing(cost) && Load(machine, cost, 0) == 7.0
  {
    LoadAt(machine, cost, 0, 0); LoadAt(machine, cost, 0, 1);
    LoadAt(machine, cost, 1, 0); LoadAt(machine, cost, 1, 1);
    LoadAt(machine, cost, 2, 0); LoadAt(machine, cost, 2, 1);
    LoadAt(machine, cost, 3, 0); LoadAt(machine, cost, 3, 1);
    LoadAt(machine, cost, 4, 0);
  }

  /** ... while pairing the threes finishes at 6, and 7/6 is 4/3 - 1/(3 * 2). */
  lemma RivalReachesSix(rival: seq<nat>, cost: seq<real>)
    requires rival == [0, 0, 1, 1, 1] && cost == [3.0, 3.0, 2.0, 2.0, 2.0]
    ensures IsSchedule(rival, 2) && Within(rival, cost, 2, 6.0) && 3.0 * 2.0 * 7.0 == (4 * 2 - 1) as real * 6.0
  {
    LoadAt(rival, cost, 0, 0); LoadAt(rival, cost, 0, 1);
    LoadAt(rival, cost, 1, 0); LoadAt(rival, cost, 1, 1);
    LoadAt(rival, cost, 2, 0); LoadAt(rival, cost, 2, 1);
    LoadAt(rival, cost, 3, 0); LoadAt(rival, cost, 3, 1);
    LoadAt(rival, cost, 4, 0); LoadAt(rival, cost, 4, 1);
  }
}
