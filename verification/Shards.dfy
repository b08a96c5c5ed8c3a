/** scripts/pytest_shard.py: whole-file shard planning. */
module Shards {
  import opened Wrappers
  import opened Orders
  import opened Scheduling
  import Text

  /** One entry of the recorded timing snapshot. */
  datatype Timing = Timing(file: string, seconds: real, testCount: nat)

  /** What `load_timings` accepts: one entry a file, no negative time, at least one test. */
  predicate ValidTimings(timings: seq<Timing>) {
    && (forall t | t in timings :: t.seconds >= 0.0 && t.testCount > 0)
    && (forall i, j | 0 <= i < j < |timings| :: timings[i].file != timings[j].file)
  }

  // ----- What is scheduled, and what it costs -----

  function FileOf(nodeid: string): string {
    Text.Before(nodeid, "::")
  }

  function FilesOf(nodeids: seq<string>): (r: seq<string>)
    ensures |r| == |nodeids| && forall i | 0 <= i < |r| :: r[i] == FileOf(nodeids[i])
  {
    seq(|nodeids|, i requires 0 <= i < |nodeids| => FileOf(nodeids[i]))
  }

  /** The keys of the per-file counter, in insertion order. */
  function Files(nodeids: seq<string>): (r: seq<string>)
    ensures Distinct(r)
    ensures forall f :: f in r <==> f in FilesOf(nodeids)
  {
    if nodeids == [] then []
    else
      var n := |nodeids| - 1;
      var r, f := Files(nodeids[..n]), FileOf(nodeids[n]);
      assert forall g :: g in FilesOf(nodeids) <==> g in FilesOf(nodeids[..n]) || g == f by {
        assert FilesOf(nodeids) == FilesOf(nodeids[..n]) + [f];
      }
      if f in r then r else r + [f]
  }

  function TestCount(nodeids: seq<string>, file: string): nat {
    if nodeids == [] then 0
    else
      var n := |nodeids| - 1;
      TestCount(nodeids[..n], file) + if FileOf(nodeids[n]) == file then 1 else 0
  }

  function RealLeq(): (real, real) -> bool {
    (a: real, b: real) => a <= b
  }

  function Ratios(timings: seq<Timing>): (r: seq<real>)
    requires ValidTimings(timings)
    ensures |r| == |timings| && forall x | x in r :: x >= 0.0
  {
    seq(|timings|, i requires 0 <= i < |timings| =>
      assert timings[i] in timings; timings[i].seconds / timings[i].testCount as real)
  }

  /** `statistics.median`: the middle value, or the mean of the two middle values. */
  function Median(values: seq<real>): (r: real)
    requires values != []
    ensures (forall x | x in values :: x >= 0.0) ==> r >= 0.0
  {
    var s := Sort(RealLeq(), values);
    assert forall i | 0 <= i < |s| :: s[i] in values by { SameElements(s, values); }
    if |s| % 2 == 1 then s[|s| / 2] else (s[|s| / 2 - 1] + s[|s| / 2]) / 2.0
  }

  function PerTest(timings: seq<Timing>): (r: real)
    requires ValidTimings(timings)
    ensures r >= 0.0
  {
    if timings == [] then 1.0 else Median(Ratios(timings))
  }

  function Recorded(timings: seq<Timing>, file: string): (r: Option<real>)
    requires ValidTimings(timings)
    ensures r.Some? ==> r.value >= 0.0
    ensures r.Some? <==> exists t :: t in timings && t.file == file
    ensures forall t | t in timings && t.file == file :: r == Some(t.seconds)
  {
    if timings == [] then None
    else if timings[0].file == file then Some(timings[0].seconds)
    else Recorded(timings[1..], file)
  }

  /** A recorded time, or else so many tests at the median pace. */
  function PriceOf(recorded: Option<real>, tests: nat, pace: real): (r: real)
    requires pace >= 0.0 && (recorded.Some? ==> recorded.value >= 0.0)
    ensures r >= 0.0
  {
    if recorded.Some? then recorded.value else tests as real * pace
  }

  function Cost(nodeids: seq<string>, timings: seq<Timing>, file: string): (r: real)
    requires ValidTimings(timings)
    ensures r >= 0.0
  {
    PriceOf(Recorded(timings, file), TestCount(nodeids, file), PerTest(timings))
  }

  /** The `costs` dictionary. */
  function CostTable(nodeids: seq<string>, timings: seq<Timing>): (r: map<string, real>)
    requires ValidTimings(timings)
    ensures forall f :: f in r <==> f in Files(nodeids)
    ensures forall f | f in r :: r[f] == Cost(nodeids, timings, f)
  {
    map f | f in Files(nodeids) :: Cost(nodeids, timings, f)
  }

  function Price(costs: map<string, real>, file: string): real {
    if file in costs then costs[file] else 0.0
  }

  /** The sort key `(-cost, name)`. */
  function LongestFirst(costs: map<string, real>): (string, string) -> bool {
    (a: string, b: string) =>
      Price(costs, a) > Price(costs, b) || (Price(costs, a) == Price(costs, b) && StringLeq(a, b))
  }

  lemma LongestFirstOrder(costs: map<string, real>)
    ensures TotalPreorder(LongestFirst(costs))
  {
    StringOrder();
  }

  /** The files, longest first. */
  function Order(nodeids: seq<string>, timings: seq<Timing>): (r: seq<string>)
    requires ValidTimings(timings)
    ensures multiset(r) == multiset(Files(nodeids))
    ensures |r| == |Files(nodeids)|
  {
    Sort(LongestFirst(CostTable(nodeids, timings)), Files(nodeids))
  }

  function Prices(order: seq<string>, costs: map<string, real>): (r: seq<real>)
    ensures |r| == |order| && forall j | 0 <= j < |r| :: r[j] == Price(costs, order[j])
  {
    seq(|order|, j requires 0 <= j < |order| => Price(costs, order[j]))
  }

  // ----- What the names, the counts and the prices mean -----

  /** The node id of a test in a file. */
  function TestId(file: string, test: string): string {
    file + "::" + test
  }

  lemma FileOfTest(file: string, test: string)
    requires ':' !in file
    ensures FileOf(TestId(file, test)) == file
  {
    Text.FindFirst(file, "::", test);
    assert TestId(file, test)[..|file|] == file;
  }

  lemma FileOfPlain(name: string)
    requires forall i: nat :: !Text.OccursAt(name, "::", i)
    ensures FileOf(name) == name
  {
    Text.BeforeNothing(name, "::");
  }

  function TestIds(file: string, tests: seq<string>): (r: seq<string>)
    ensures |r| == |tests| && forall i | 0 <= i < |r| :: r[i] == TestId(file, tests[i])
  {
    seq(|tests|, i requires 0 <= i < |tests| => TestId(file, tests[i]))
  }

  /** The tests of one file are one file to schedule: only one shard is admissible. */
  lemma {:induction false} OneFile(file: string, tests: seq<string>)
    requires ':' !in file
    ensures Files(TestIds(file, tests)) == if tests == [] then [] else [file]
    ensures TestCount(TestIds(file, tests), file) == |tests|
  {
    if tests != [] {
      var n := |tests| - 1;
      OneFile(file, tests[..n]);
      assert TestIds(file, tests)[..n] == TestIds(file, tests[..n]);
      FileOfTest(file, tests[n]);
    }
  }

  /** A file with a recorded time is priced at it, whatever its tests. */
  lemma RecordedPrice(nodeids: seq<string>, timings: seq<Timing>, t: Timing)
    requires ValidTimings(timings) && t in timings
    ensures Cost(nodeids, timings, t.file) == t.seconds
  {
  }

  /** A file without one is priced by its tests, at the median pace, or at one each without any timing. */
  lemma UnrecordedPrice(nodeids: seq<string>, timings: seq<Timing>, file: string)
    requires ValidTimings(timings) && forall t | t in timings :: t.file != file
    ensures timings == [] ==> Cost(nodeids, timings, file) == TestCount(nodeids, file) as real
    ensures timings != [] ==>
              Cost(nodeids, timings, file) == TestCount(nodeids, file) as real * Median(Ratios(timings))
  {
    hide FileOf, Median, Ratios, TestCount;
  }

  /** The median, doubled, is the sum of the two middle values of any sorted arrangement; they may be the same. */
  lemma MedianIsMiddle(values: seq<real>, sorted: seq<real>)
    requires values != [] && multiset(sorted) == multiset(values) && Sorted(RealLeq(), sorted)
    ensures |sorted| == |values|
    ensures 2.0 * Median(values) == sorted[(|values| - 1) / 2] + sorted[|values| / 2]
  {
    SortSorts(RealLeq(), values);
    SameElements(sorted, values);
    SortedUnique(RealLeq(), sorted, Sort(RealLeq(), values));
  }

  /** The files are taken from the dearest on; files of one price are taken by name. */
  lemma TakenByPriceThenName(nodeids: seq<string>, timings: seq<Timing>, i: nat, j: nat)
    requires ValidTimings(timings) && i < j < |Order(nodeids, timings)|
    ensures var a, b := Order(nodeids, timings)[i], Order(nodeids, timings)[j];
            && a in Files(nodeids) && b in Files(nodeids)
            && Cost(nodeids, timings, a) >= Cost(nodeids, timings, b)
            && (Cost(nodeids, timings, a) == Cost(nodeids, timings, b) ==> StringLeq(a, b))
  {
    var costs, order := CostTable(nodeids, timings), Order(nodeids, timings);
    LongestFirstOrder(costs);
    SortSorts(LongestFirst(costs), Files(nodeids));
    ListedFile(nodeids, order, i);
    ListedFile(nodeids, order, j);
    PricesInOrder(costs, order, i, j);
    hide Cost, Files, Sort, LongestFirst, Sorted;
  }

  lemma ListedFile(nodeids: seq<string>, order: seq<string>, i: nat)
    requires multiset(order) == multiset(Files(nodeids)) && i < |order|
    ensures order[i] in Files(nodeids)
  {
    SameElements(order, Files(nodeids));
    assert order[i] in order;
    hide Files;
  }

  lemma PricesInOrder(costs: map<string, real>, order: seq<string>, i: nat, j: nat)
    requires Sorted(LongestFirst(costs), order) && i < j < |order|
    ensures Price(costs, order[i]) >= Price(costs, order[j])
    ensures Price(costs, order[i]) == Price(costs, order[j]) ==> StringLeq(order[i], order[j])
  {
    assert LongestFirst(costs)(order[i], order[j]);
  }

  // ----- The order of the node ids is irrelevant -----

  lemma {:induction false} CountIsMultiplicity(nodeids: seq<string>, file: string)
    ensures TestCount(nodeids, file) == multiset(FilesOf(nodeids))[file]
  {
    hide FileOf;
    if nodeids != [] {
      var n := |nodeids| - 1;
      CountIsMultiplicity(nodeids[..n], file);
      assert FilesOf(nodeids) == FilesOf(nodeids[..n]) + [FileOf(nodeids[n])];
    }
  }

  lemma FilesOfWithout(xs: seq<string>, k: nat)
    requires k < |xs|
    ensures FilesOf(Without(xs, k)) == Without(FilesOf(xs), k)
  {
  }

  lemma {:induction false} FilesOfPermutation(a: seq<string>, b: seq<string>)
    requires multiset(a) == multiset(b)
    ensures multiset(FilesOf(a)) == multiset(FilesOf(b))
    decreases |a|
  {
    SameElements(a, b);
    if a != [] {
      assert a[0] in b;
      var k :| 0 <= k < |b| && b[k] == a[0];
      RemovedAlike(a, b, k);
      FilesOfPermutation(Without(a, 0), Without(b, k));
      FilesOfWithout(a, 0);
      FilesOfWithout(b, k);
      ElementsWithout(FilesOf(a), 0);
      ElementsWithout(FilesOf(b), k);
      hide Without;
    } else {
      assert FilesOf(a) == FilesOf(b);
    }
  }

  lemma RemovedAlike(a: seq<string>, b: seq<string>, k: nat)
    requires multiset(a) == multiset(b) && k < |b| && a != [] && a[0] == b[k]
    ensures multiset(Without(a, 0)) == multiset(Without(b, k)) && |Without(a, 0)| < |a|
  {
    ElementsWithout(a, 0);
    ElementsWithout(b, k);
    assert |Without(a, 0)| == |a| - 1;
    hide Without;
    assert multiset(Without(a, 0)) == multiset(a) - multiset{a[0]};
    assert multiset(Without(b, k)) == multiset(b) - multiset{b[k]};
  }

  lemma SameFiles(a: seq<string>, b: seq<string>)
    requires multiset(a) == multiset(b)
    ensures multiset(Files(a)) == multiset(Files(b))
  {
    FilesOfPermutation(a, b);
    SameElements(FilesOf(a), FilesOf(b));
    forall f ensures multiset(Files(a))[f] == multiset(Files(b))[f] {
      DistinctCountsOnce(Files(a), f);
      DistinctCountsOnce(Files(b), f);
      assert f in Files(a) <==> f in multiset(Files(a));
      assert f in Files(b) <==> f in multiset(Files(b));
    }
  }

  lemma SameCosts(a: seq<string>, b: seq<string>, timings: seq<Timing>)
    requires ValidTimings(timings) && multiset(a) == multiset(b)
    ensures CostTable(a, timings) == CostTable(b, timings)
  {
    FilesOfPermutation(a, b);
    SameElements(FilesOf(a), FilesOf(b));
    forall f ensures Cost(a, timings, f) == Cost(b, timings, f) {
      CountIsMultiplicity(a, f);
      CountIsMultiplicity(b, f);
    }
  }

  /** Two collections of the same tests, in whatever order, have the same plan. */
  lemma AssignmentIgnoresOrder(a: seq<string>, b: seq<string>, m: nat, timings: seq<Timing>)
    requires ValidTimings(timings) && m > 0 && multiset(a) == multiset(b)
    ensures Assignment(a, m, timings) == Assignment(b, m, timings)
  {
    SameFiles(a, b);
    SameCosts(a, b, timings);
    var costs := CostTable(a, timings);
    LongestFirstOrder(costs);
    StringOrder();
    SortCanonical(LongestFirst(costs), Files(a), Files(b));
    assert Order(a, timings) == Order(b, timings) && PlanPrices(a, timings) == PlanPrices(b, timings);
    hide Order, PlanPrices, Choices, ShardFiles, Sort, Files, CostTable;
  }

  // ----- The greedy choice -----

  /** The key `(weight, number of files, index)` by which a shard is chosen. */
  predicate Precedes(machine: seq<nat>, cost: seq<real>, i: nat, j: nat)
    requires |machine| == |cost|
  {
    var a, b := Load(machine, cost, i), Load(machine, cost, j);
    a < b || (a == b && (Jobs(machine, i) < Jobs(machine, j) || (Jobs(machine, i) == Jobs(machine, j) && i < j)))
  }

  lemma PrecedesTransitive(machine: seq<nat>, cost: seq<real>, i: nat, j: nat, k: nat)
    requires |machine| == |cost| && Precedes(machine, cost, i, j) && (j == k || Precedes(machine, cost, j, k))
    ensures Precedes(machine, cost, i, k)
  {
  }

  /** The first of the shards `0..k-1` under the key. */
  function Lightest(machine: seq<nat>, cost: seq<real>, k: nat): (r: nat)
    requires |machine| == |cost| && k > 0
    ensures r < k && forall i: nat | i < k && i != r :: Precedes(machine, cost, r, i)
  {
    if k == 1 then 0
    else
      var best := Lightest(machine, cost, k - 1);
      if Precedes(machine, cost, k - 1, best) then
        var last: nat := k - 1;
        assert forall i: nat | i < last :: Precedes(machine, cost, last, i) by {
          forall i: nat | i < last ensures Precedes(machine, cost, last, i) {
            PrecedesTransitive(machine, cost, last, best, i);
          }
        }
        last
      else best
  }

  /** The shard of each file, in the order the files are taken. */
  function Choices(cost: seq<real>, m: nat): (r: seq<nat>)
    requires m > 0
    ensures |r| == |cost| && IsSchedule(r, m)
  {
    if cost == [] then []
    else
      var n := |cost| - 1;
      var earlier := Choices(cost[..n], m);
      earlier + [Lightest(earlier, cost[..n], m)]
  }

  /** The files a schedule gives to shard `i`, in the order they were taken. */
  function ShardFiles(order: seq<string>, machine: seq<nat>, i: nat): (r: seq<string>)
    requires |order| == |machine|
    ensures |r| == Jobs(machine, i)
  {
    if order == [] then []
    else
      var n := |order| - 1;
      ShardFiles(order[..n], machine[..n], i) + if machine[n] == i then [order[n]] else []
  }

  /** The prices of the files, longest first. */
  function PlanPrices(nodeids: seq<string>, timings: seq<Timing>): (r: seq<real>)
    requires ValidTimings(timings)
    ensures |r| == |Order(nodeids, timings)|
  {
    Prices(Order(nodeids, timings), CostTable(nodeids, timings))
  }

  /** The plan: the sorted files of each shard. */
  function Assignment(nodeids: seq<string>, m: nat, timings: seq<Timing>): (r: seq<seq<string>>)
    requires ValidTimings(timings) && m > 0
    ensures |r| == m
    ensures forall i | 0 <= i < m ::
              r[i] == Sort(StringLeq, ShardFiles(Order(nodeids, timings), Choices(PlanPrices(nodeids, timings), m), i))
  {
    seq(m, i requires 0 <= i < m =>
      Sort(StringLeq, ShardFiles(Order(nodeids, timings), Choices(PlanPrices(nodeids, timings), m), i)))
  }

  lemma FilesStep(nodeids: seq<string>, n: nat)
    requires n < |nodeids|
    ensures var file, names := FileOf(nodeids[n]), Files(nodeids[..n]);
            Files(nodeids[..n + 1]) == if file in names then names else names + [file]
  {
    assert nodeids[..n + 1][..n] == nodeids[..n];
  }

  /** `names` and `counts` have the same keys, and `counts` the number of tests of each file. */
  ghost predicate Counted(nodeids: seq<string>, names: seq<string>, counts: map<string, nat>) {
    && (forall f :: f in counts <==> f in names)
    && forall f :: TestCount(nodeids, f) == if f in counts then counts[f] else 0
  }

  lemma CountedGrows(nodeids: seq<string>, n: nat, names: seq<string>, counts: map<string, nat>)
    requires n < |nodeids| && Counted(nodeids[..n], names, counts)
    ensures var file := FileOf(nodeids[n]);
            && (file in counts <==> file in names)
            && if file in counts then Counted(nodeids[..n + 1], names, counts[file := counts[file] + 1])
               else Counted(nodeids[..n + 1], names + [file], counts[file := 1])
  {
    assert nodeids[..n + 1][..n] == nodeids[..n];
  }

  /** `Counter` over the files of the node ids: its keys in insertion order, and its counts. */
  method CountTests(nodeids: seq<string>) returns (names: seq<string>, counts: map<string, nat>)
    ensures names == Files(nodeids)
    ensures forall f :: f in counts <==> f in names
    ensures forall f | f in counts :: counts[f] == TestCount(nodeids, f)
  {
    names, counts := [], map[];
    for n := 0 to |nodeids|
      invariant names == Files(nodeids[..n])
      invariant Counted(nodeids[..n], names, counts)
    {
      FilesStep(nodeids, n);
      CountedGrows(nodeids, n, names, counts);
      hide Counted, FileOf, Files;
      var file := FileOf(nodeids[n]);
      if file in counts {
        counts := counts[file := counts[file] + 1];
      } else {
        counts := counts[file := 1];
        names := names + [file];
      }
    }
    assert nodeids[..|nodeids|] == nodeids;
  }

  /** `min(range(shard_count), key=...)`. */
  method SelectShard(assignments: array<seq<string>>, weights: array<real>,
                     ghost taken: seq<string>, ghost prices: seq<real>, ghost machine: seq<nat>)
    returns (best: nat)
    requires assignments.Length == weights.Length > 0 && |taken| == |prices| == |machine|
    requires forall i: nat | i < assignments.Length :: assignments[i] == ShardFiles(taken, machine, i)
    requires forall i: nat | i < weights.Length :: weights[i] == Load(machine, prices, i)
    ensures best == Lightest(machine, prices, assignments.Length)
  {
    best := 0;
    for index := 1 to assignments.Length
      invariant best < index && best == Lightest(machine, prices, index)
    {
      if || weights[index] < weights[best]
         || (weights[index] == weights[best] && |assignments[index]| < |assignments[best]|)
      {
        best := index;
      }
    }
  }

  /** One turn of the scheduling loop: file `order[j]` goes to the shard chosen for it. */
  method PlaceFile(assignments: array<seq<string>>, weights: array<real>,
                   order: seq<string>, ghost prices: seq<real>, j: nat, price: real)
    requires assignments.Length == weights.Length > 0
    requires j < |order| == |prices| && price == prices[j]
    requires forall i: nat | i < assignments.Length ::
               assignments[i] == ShardFiles(order[..j], Choices(prices[..j], assignments.Length), i)
    requires forall i: nat | i < weights.Length ::
               weights[i] == Load(Choices(prices[..j], assignments.Length), prices[..j], i)
    modifies assignments, weights
    ensures forall i: nat | i < assignments.Length ::
              assignments[i] == ShardFiles(order[..j + 1], Choices(prices[..j + 1], assignments.Length), i)
    ensures forall i: nat | i < weights.Length ::
              weights[i] == Load(Choices(prices[..j + 1], assignments.Length), prices[..j + 1], i)
  {
    ghost var machine := Choices(prices[..j], assignments.Length);
    var best := SelectShard(assignments, weights, order[..j], prices[..j], machine);
    Placement(order, prices, assignments.Length, j);
    assignments[best] := assignments[best] + [order[j]];
    weights[best] := weights[best] + price;
  }

  /** The scheduling loop of `assign_files`, over files already in the order they are taken. */
  method Distribute(order: seq<string>, costs: map<string, real>, m: nat) returns (assignments: array<seq<string>>)
    requires m > 0
    ensures fresh(assignments) && assignments.Length == m
    ensures forall i: nat | i < m :: assignments[i] == ShardFiles(order, Choices(Prices(order, costs), m), i)
  {
    ghost var prices := Prices(order, costs);
    var weights;
    assignments, weights := new seq<string>[m](_ => []), new real[m](_ => 0.0);
    for j := 0 to |order|
      invariant fresh(assignments) && fresh(weights) && assignments.Length == m == weights.Length
      invariant forall i: nat | i < m :: assignments[i] == ShardFiles(order[..j], Choices(prices[..j], m), i)
      invariant forall i: nat | i < m :: weights[i] == Load(Choices(prices[..j], m), prices[..j], i)
    {
      PlaceFile(assignments, weights, order, prices, j, Price(costs, order[j]));
    }
    assert order[..|order|] == order && prices[..|order|] == prices;
  }

  /** How the schedule of a prefix grows when the next file is placed. */
  lemma Placement(order: seq<string>, costs: seq<real>, m: nat, j: nat)
    requires |order| == |costs| && j < |order| && m > 0
    ensures var machine := Choices(costs[..j], m);
            var best := Lightest(machine, costs[..j], m);
            && Choices(costs[..j + 1], m) == machine + [best]
            && (forall i: nat :: ShardFiles(order[..j + 1], Choices(costs[..j + 1], m), i)
                  == ShardFiles(order[..j], machine, i) + if i == best then [order[j]] else [])
            && (forall i: nat :: Load(Choices(costs[..j + 1], m), costs[..j + 1], i)
                  == Load(machine, costs[..j], i) + if i == best then costs[j] else 0.0)
  {
    var machine := Choices(costs[..j], m);
    var next := Choices(costs[..j + 1], m);
    assert costs[..j + 1][..j] == costs[..j] && order[..j + 1][..j] == order[..j];
    assert next[..j] == machine;
  }

  /** The dictionary comprehension `costs` of `assign_files`. */
  method PriceFiles(ghost nodeids: seq<string>, timings: seq<Timing>, names: seq<string>, counts: map<string, nat>)
    returns (costs: map<string, real>)
    requires ValidTimings(timings)
    requires forall f | f in names :: f in counts && counts[f] == TestCount(nodeids, f)
    ensures costs == map f | f in names :: Cost(nodeids, timings, f)
  {
    var perTest := PerTest(timings);
    costs := map[];
    for n := 0 to |names|
      invariant forall k | 0 <= k < n :: names[k] in costs
      invariant forall f | f in costs :: f in names && costs[f] == Cost(nodeids, timings, f)
    {
      var price := PriceOf(Recorded(timings, names[n]), counts[names[n]], perTest);
      costs := costs[names[n] := price];
    }
  }

  /** `assign_files`. */
  method AssignFiles(nodeids: seq<string>, shardCount: int, timings: seq<Timing>)
    returns (r: Result<seq<seq<string>>>)
    requires ValidTimings(timings)
    ensures r.Ok? <==> 0 < shardCount <= |Files(nodeids)|
    ensures r.Ok? ==> r.value == Assignment(nodeids, shardCount, timings)
  {
    if shardCount <= 0 { return Err("shard count must be positive"); }
    var names, counts := CountTests(nodeids);
    if shardCount > |names| { return Err("shard count exceeds collected test-file count"); }
    var costs := PriceFiles(nodeids, timings, names, counts);
    var order := Sort(LongestFirst(costs), names);
    var assignments := Distribute(order, costs, shardCount);
    var shards := SortEach(assignments);
    return Ok(shards);
  }

  /** `[sorted(files) for files in assignments]`. */
  method SortEach(assignments: array<seq<string>>) returns (shards: seq<seq<string>>)
    ensures |shards| == assignments.Length
    ensures forall i: nat | i < |shards| :: shards[i] == Sort(StringLeq, assignments[i])
  {
    hide *;
    shards := [];
    for i := 0 to assignments.Length
      invariant |shards| == i
      invariant forall k: nat | k < i :: shards[k] == Sort(StringLeq, assignments[k])
    {
      var sorted := Sort(StringLeq, assignments[i]);
      shards := shards + [sorted];
    }
  }
}
