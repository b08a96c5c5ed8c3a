/** What the shard assignment of scripts/pytest_shard.py guarantees about balance and coverage. */
module ShardBalance {
  import opened Orders
  import opened Scheduling
  import opened Shards

  // ----- The choices are greedy, so Graham's bound applies -----

  lemma {:induction false} ChoicesGreedy(cost: seq<real>, m: nat)
    requires m > 0
    ensures Greedy(Choices(cost, m), cost, m)
  {
    if cost != [] {
      var n := |cost| - 1;
      var machine, earlier := Choices(cost, m), Choices(cost[..n], m);
      ChoicesGreedy(cost[..n], m);
      assert machine[..n] == earlier;
      forall k: nat | k < |machine| ensures PlacedLeast(machine, cost, m, k) {
        if k < n {
          assert PlacedLeast(earlier, cost[..n], m, k);
          assert machine[..k] == earlier[..k] && cost[..k] == cost[..n][..k];
        } else {
          forall i: nat | i < m ensures Load(earlier, cost[..n], machine[n]) <= Load(earlier, cost[..n], i) {
            assert i == machine[n] || Precedes(earlier, cost[..n], machine[n], i);
          }
        }
      }
    }
  }

  /** The recorded or estimated cost of a list of files. */
  function ShardCost(files: seq<string>, costs: map<string, real>): real {
    if files == [] then 0.0 else ShardCost(files[..|files| - 1], costs) + Price(costs, files[|files| - 1])
  }

  lemma {:induction false} ShardCostFront(files: seq<string>, costs: map<string, real>)
    requires files != []
    ensures ShardCost(files, costs) == Price(costs, files[0]) + ShardCost(files[1..], costs)
  {
    var n := |files| - 1;
    if n > 0 {
      ShardCostFront(files[..n], costs);
      assert files[1..][..n - 1] == files[..n][1..];
    }
  }

  lemma {:induction false} ShardCostInsert(leq: (string, string) -> bool, x: string, xs: seq<string>,
      costs: map<string, real>)
    ensures ShardCost(Insert(leq, x, xs), costs) == Price(costs, x) + ShardCost(xs, costs)
  {
    ShardCostFront(Insert(leq, x, xs), costs);
    if xs != [] {
      if leq(x, xs[0]) {
        assert Insert(leq, x, xs)[1..] == xs;
      } else {
        ShardCostFront(xs, costs);
        ShardCostInsert(leq, x, xs[1..], costs);
        assert Insert(leq, x, xs)[1..] == Insert(leq, x, xs[1..]);
      }
    } else {
      assert Insert(leq, x, xs)[1..] == [];
    }
  }

  lemma {:induction false} ShardCostSort(leq: (string, string) -> bool, xs: seq<string>, costs: map<string, real>)
    ensures ShardCost(Sort(leq, xs), costs) == ShardCost(xs, costs)
  {
    if xs != [] {
      ShardCostSort(leq, xs[1..], costs);
      ShardCostInsert(leq, xs[0], Sort(leq, xs[1..]), costs);
      ShardCostFront(xs, costs);
    }
  }

  lemma {:induction false} ShardCostIsLoad(order: seq<string>, costs: map<string, real>, machine: seq<nat>, i: nat)
    requires |order| == |machine|
    ensures ShardCost(ShardFiles(order, machine, i), costs) == Load(machine, Prices(order, costs), i)
  {
    if order != [] {
      var n := |order| - 1;
      ShardCostIsLoad(order[..n], costs, machine[..n], i);
      assert Prices(order, costs)[..n] == Prices(order[..n], costs);
      var earlier := ShardFiles(order[..n], machine[..n], i);
      if machine[n] == i {
        assert (earlier + [order[n]])[..|earlier|] == earlier;
      } else {
        assert earlier + [] == earlier;
      }
    }
  }

  lemma AssignedCost(nodeids: seq<string>, m: nat, timings: seq<Timing>, i: nat)
    requires ValidTimings(timings) && i < m
    ensures ShardCost(Assignment(nodeids, m, timings)[i], CostTable(nodeids, timings))
         == Load(Choices(PlanPrices(nodeids, timings), m), PlanPrices(nodeids, timings), i)
  {
    var order, costs, machine := Order(nodeids, timings), CostTable(nodeids, timings),
        Choices(PlanPrices(nodeids, timings), m);
    ShardCostIsLoad(order, costs, machine, i);
    ShardCostSort(StringLeq, ShardFiles(order, machine, i), costs);
  }

  lemma PricesDescend(nodeids: seq<string>, timings: seq<Timing>)
    requires ValidTimings(timings)
    ensures NonIncreasing(PlanPrices(nodeids, timings)) && NonNegative(PlanPrices(nodeids, timings))
  {
    var costs, files, order := CostTable(nodeids, timings), Files(nodeids), Order(nodeids, timings);
    LongestFirstOrder(costs);
    SortSorts(LongestFirst(costs), files);
    SameElements(order, files);
    forall i, j | 0 <= i < j < |order| ensures Price(costs, order[i]) >= Price(costs, order[j]) {
      assert LongestFirst(costs)(order[i], order[j]);
    }
  }

  /** The shard a rival plan gives each file, in scheduling order. */
  function RivalMachine(order: seq<string>, rival: map<string, nat>): (r: seq<nat>)
    requires forall f | f in order :: f in rival
    ensures |r| == |order| && forall j | 0 <= j < |r| :: r[j] == rival[order[j]]
  {
    seq(|order|, j requires 0 <= j < |order| => rival[order[j]])
  }

  /**
    No plan is much better: if some plan of the same files over the same number of shards keeps
    every shard within `bound`, every shard of the computed plan costs at most
    (4/3 - 1/(3m)) * bound.
   */
  lemma AssignmentWithinFourThirds(
      nodeids: seq<string>, m: nat, timings: seq<Timing>, rival: map<string, nat>, bound: real, i: nat)
    requires ValidTimings(timings) && i < m
    requires forall f | f in Order(nodeids, timings) :: f in rival && rival[f] < m
    requires forall k: nat | k < m ::
               ShardCost(ShardFiles(Order(nodeids, timings), RivalMachine(Order(nodeids, timings), rival), k),
                         CostTable(nodeids, timings)) <= bound
    ensures WithinFourThirds(ShardCost(Assignment(nodeids, m, timings)[i], CostTable(nodeids, timings)), m, bound)
  {
    var order, prices := Order(nodeids, timings), PlanPrices(nodeids, timings);
    var other := RivalMachine(order, rival);
    forall k: nat | k < m ensures Load(other, prices, k) <= bound {
      ShardCostIsLoad(order, CostTable(nodeids, timings), other, k);
    }
    PricesDescend(nodeids, timings);
    ChoicesGreedy(prices, m);
    LongestFirstBound(Choices(prices, m), prices, m, other, bound, i);
    AssignedCost(nodeids, m, timings, i);
  }

  /** Average load plus all but one m-th of the most expensive file. */
  lemma AssignmentNearAverage(nodeids: seq<string>, m: nat, timings: seq<Timing>, largest: real, i: nat)
    requires ValidTimings(timings) && i < m
    requires largest >= 0.0 && forall f | f in Files(nodeids) :: Cost(nodeids, timings, f) <= largest
    ensures NearAverage(ShardCost(Assignment(nodeids, m, timings)[i], CostTable(nodeids, timings)), m,
                        Total(PlanPrices(nodeids, timings)), largest)
  {
    var prices := PlanPrices(nodeids, timings);
    PricesDescend(nodeids, timings);
    ChoicesGreedy(prices, m);
    SameElements(Order(nodeids, timings), Files(nodeids));
    ListBound(Choices(prices, m), prices, m, largest, i);
    AssignedCost(nodeids, m, timings, i);
  }

  // ----- No shard is empty -----

  /** Free shards are taken first and in order, whatever the files cost. */
  lemma {:induction false} FirstRound(cost: seq<real>, m: nat, i: nat)
    requires m > 0 && NonNegative(cost) && |cost| <= m
    ensures Jobs(Choices(cost, m), i) == if i < |cost| then 1 else 0
    ensures i >= |cost| ==> Load(Choices(cost, m), cost, i) == 0.0
  {
    if cost != [] {
      var n := |cost| - 1;
      var machine, earlier := Choices(cost, m), Choices(cost[..n], m);
      assert machine[..n] == earlier;
      FirstRound(cost[..n], m, i);
      FirstRound(cost[..n], m, n);
      var best := machine[n];
      FirstRound(cost[..n], m, best);
      LoadNonNegative(earlier, cost[..n], best);
      assert best == n || Precedes(earlier, cost[..n], best, n);
    }
  }

  lemma {:induction false} JobsGrow(cost: seq<real>, m: nat, i: nat)
    requires m > 0 && NonNegative(cost) && |cost| >= m && i < m
    ensures Jobs(Choices(cost, m), i) > 0
  {
    if |cost| == m {
      FirstRound(cost, m, i);
    } else {
      var n := |cost| - 1;
      JobsGrow(cost[..n], m, i);
      assert Choices(cost, m)[..n] == Choices(cost[..n], m);
    }
  }

  /** With no more shards than files, every shard gets a file, even when every file costs nothing. */
  lemma EveryShardHasFiles(nodeids: seq<string>, m: nat, timings: seq<Timing>, i: nat)
    requires ValidTimings(timings) && i < m <= |Files(nodeids)|
    ensures Assignment(nodeids, m, timings)[i] != []
  {
    PricesDescend(nodeids, timings);
    JobsGrow(PlanPrices(nodeids, timings), m, i);
  }

  // ----- Every file lies in exactly one shard -----

  lemma {:induction false} ShardMembers(order: seq<string>, machine: seq<nat>, i: nat, f: string)
    requires |order| == |machine|
    ensures f in ShardFiles(order, machine, i) <==> exists j :: 0 <= j < |order| && order[j] == f && machine[j] == i
  {
    if order != [] {
      var n := |order| - 1;
      ShardMembers(order[..n], machine[..n], i, f);
      if exists j :: 0 <= j < |order| && order[j] == f && machine[j] == i {
        var j :| 0 <= j < |order| && order[j] == f && machine[j] == i;
        assert j == n || (order[..n][j] == f && machine[..n][j] == i);
      }
    }
  }

  lemma {:induction false} ShardDistinct(order: seq<string>, machine: seq<nat>, i: nat)
    requires |order| == |machine| && Distinct(order)
    ensures Distinct(ShardFiles(order, machine, i))
  {
    if order != [] {
      var n := |order| - 1;
      ShardDistinct(order[..n], machine[..n], i);
      ShardMembers(order[..n], machine[..n], i, order[n]);
    }
  }

  lemma OrderListsFiles(nodeids: seq<string>, timings: seq<Timing>)
    requires ValidTimings(timings)
    ensures Distinct(Order(nodeids, timings))
    ensures forall f :: f in Order(nodeids, timings) <==> f in Files(nodeids)
  {
    SameElements(Order(nodeids, timings), Files(nodeids));
    DistinctPermutation(Files(nodeids), Order(nodeids, timings));
  }

  lemma AssignmentMembers(nodeids: seq<string>, m: nat, timings: seq<Timing>, i: nat, f: string)
    requires ValidTimings(timings) && i < m
    ensures f in Assignment(nodeids, m, timings)[i]
       <==> exists j :: 0 <= j < |Order(nodeids, timings)| && Order(nodeids, timings)[j] == f
                     && Choices(PlanPrices(nodeids, timings), m)[j] == i
  {
    var order, machine := Order(nodeids, timings), Choices(PlanPrices(nodeids, timings), m);
    ShardMembers(order, machine, i, f);
    SameElements(Sort(StringLeq, ShardFiles(order, machine, i)), ShardFiles(order, machine, i));
  }

  /** A file in shard `i` of the plan is a collected file, and in no other shard. */
  lemma ShardsAreDisjoint(nodeids: seq<string>, m: nat, timings: seq<Timing>, i: nat, k: nat, f: string)
    requires ValidTimings(timings) && i < m && k < m
    requires f in Assignment(nodeids, m, timings)[i]
    ensures f in Files(nodeids)
    ensures f in Assignment(nodeids, m, timings)[k] ==> i == k
  {
    OrderListsFiles(nodeids, timings);
    AssignmentMembers(nodeids, m, timings, i, f);
    AssignmentMembers(nodeids, m, timings, k, f);
    hide Assignment, Choices, FileOf, FilesOf, Files, Sort, PlanPrices, Order;
  }

  /** Every collected file lies in some shard. */
  lemma EveryFileIsAssigned(nodeids: seq<string>, m: nat, timings: seq<Timing>, f: string) returns (i: nat)
    requires ValidTimings(timings) && m > 0 && f in Files(nodeids)
    ensures i < m && f in Assignment(nodeids, m, timings)[i]
  {
    OrderListsFiles(nodeids, timings);
    var j :| 0 <= j < |Order(nodeids, timings)| && Order(nodeids, timings)[j] == f;
    i := Choices(PlanPrices(nodeids, timings), m)[j];
    AssignmentMembers(nodeids, m, timings, i, f);
  }

  /** Each shard is written sorted and without repetition. */
  lemma ShardsAreSorted(nodeids: seq<string>, m: nat, timings: seq<Timing>, i: nat)
    requires ValidTimings(timings) && i < m
    ensures Distinct(Assignment(nodeids, m, timings)[i]) && Sorted(StringLeq, Assignment(nodeids, m, timings)[i])
  {
    var order, machine := Order(nodeids, timings), Choices(PlanPrices(nodeids, timings), m);
    var files := ShardFiles(order, machine, i);
    OrderListsFiles(nodeids, timings);
    ShardDistinct(order, machine, i);
    DistinctPermutation(files, Sort(StringLeq, files));
    StringOrder();
    SortSorts(StringLeq, files);
  }
}
