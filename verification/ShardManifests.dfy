/** scripts/pytest_shard.py: collection, the manifests of a plan, and their independent check. */
module ShardManifests {
  import opened Wrappers
  import opened Orders
  import opened Shards
  import opened ShardBalance
  import Text

  // ----- Collection -----

  predicate NamesTest(line: string) {
    Text.StartsWith(Text.Strip(line), "tests/") && Text.Contains(line, "::")
  }

  /** The collected lines that name a test, stripped. */
  function Collected(lines: seq<string>): seq<string> {
    if lines == [] then []
    else
      var n := |lines| - 1;
      Collected(lines[..n]) + if NamesTest(lines[n]) then [Text.Strip(lines[n])] else []
  }

  predicate ValidTestFile(file: string) {
    Text.EndsWith(file, ".py") && '\n' !in file && '\r' !in file
  }

  ghost predicate Collectable(named: seq<string>) {
    named != [] && Distinct(named) && forall t | t in named :: ValidTestFile(FileOf(t))
  }

  method CollectNamed(lines: seq<string>) returns (named: seq<string>)
    ensures named == Collected(lines)
  {
    named := [];
    for i := 0 to |lines|
      invariant named == Collected(lines[..i])
    {
      assert lines[..i + 1][..i] == lines[..i];
      if NamesTest(lines[i]) { named := named + [Text.Strip(lines[i])]; }
    }
    assert lines[..|lines|] == lines;
  }

  /** The line starts below `tests/`, contains `::`, and is the test without the white space around it. */
  ghost predicate Names(line: string, t: string) {
    t == Text.Strip(line) && "tests/" <= t && exists i: nat :: Text.OccursAt(line, "::", i)
  }

  /** The collected tests are what the lines of the output name. */
  lemma {:induction false} CollectedMeans(lines: seq<string>, t: string)
    ensures t in Collected(lines) <==> exists k :: 0 <= k < |lines| && Names(lines[k], t)
  {
    if lines != [] {
      var n := |lines| - 1;
      var front := lines[..n];
      CollectedMeans(front, t);
      NamesTestMeans(lines[n], t);
      CollectedStep(lines, t);
      hide Names, Collected, NamesTest, Text.Strip;
      assert forall k | 0 <= k < n :: lines[k] == front[k];
    }
  }

  lemma CollectedStep(lines: seq<string>, t: string)
    requires lines != []
    ensures var n := |lines| - 1;
            t in Collected(lines) <==> t in Collected(lines[..n]) || (NamesTest(lines[n]) && t == Text.Strip(lines[n]))
  {
    hide Text.Strip, NamesTest;
  }

  lemma NamesTestMeans(line: string, t: string)
    ensures NamesTest(line) && t == Text.Strip(line) <==> Names(line, t)
  {
  }

  /** The file of each collected test ends in `.py` and is one line. */
  lemma CollectableMeans(named: seq<string>)
    ensures Collectable(named)
       <==> && named != [] && Distinct(named)
            && forall t | t in named :: '\n' !in FileOf(t) && '\r' !in FileOf(t) && exists a :: FileOf(t) == a + ".py"
  {
    forall t ensures Text.EndsWith(FileOf(t), ".py") <==> exists a :: FileOf(t) == a + ".py" {
      Text.EndsWithMeans(FileOf(t), ".py");
    }
    hide FileOf, Text.EndsWith;
  }

  method AllFilesValid(nodeids: seq<string>) returns (ok: bool)
    ensures ok <==> forall t | t in nodeids :: ValidTestFile(FileOf(t))
  {
    for i := 0 to |nodeids|
      invariant forall k | 0 <= k < i :: ValidTestFile(FileOf(nodeids[k]))
    {
      if !ValidTestFile(FileOf(nodeids[i])) { return false; }
    }
    return true;
  }

  lemma SortedNamed(named: seq<string>)
    ensures var nodeids := Sort(StringLeq, named);
            && (Collectable(named) <==> Collectable(nodeids))
            && (|nodeids| == |ToSet(nodeids)| <==> Distinct(nodeids))
            && (nodeids == Sort(StringLeq, nodeids))
  {
    var nodeids := Sort(StringLeq, named);
    StringOrder();
    SortSorts(StringLeq, named);
    SameElements(nodeids, named);
    DistinctByCount(nodeids);
    SortOfSorted(StringLeq, nodeids);
    if Distinct(named) { DistinctPermutation(named, nodeids); }
    if Distinct(nodeids) { DistinctPermutation(nodeids, named); }
  }

  /** `parse_collected_nodeids`, over the collector's output. */
  method ParseCollected(output: string) returns (r: Result<seq<string>>)
    ensures var named := Collected(Text.SplitLines(output));
            && (r.Ok? <==> Collectable(named))
            && (r.Ok? ==> r.value == Sort(StringLeq, named) && IsInventory(r.value))
  {
    var named := CollectNamed(Text.SplitLines(output));
    var nodeids := Sort(StringLeq, named);
    SortedNamed(named);
    if nodeids == [] { return Err("pytest collection produced no test node IDs"); }
    if |nodeids| != |ToSet(nodeids)| { return Err("pytest collection produced duplicate test node IDs"); }
    var valid := AllFilesValid(nodeids);
    if !valid { return Err("invalid collected test file"); }
    return Ok(nodeids);
  }

  // ----- Planning -----

  datatype Manifest = Manifest(
    candidateSha: string, shardIndex: int, shardCount: int, runtime: string,
    inventorySha: string, inventory: seq<string>, files: seq<string>, nodeids: seq<string>)

  predicate IsFullSha(s: string) {
    |s| == 40 && Text.IsLowerHex(s)
  }

  /** Sorted and without repetition, as the checker tests it. */
  predicate IsInventory(xs: seq<string>) {
    Sort(StringLeq, xs) == xs && |ToSet(xs)| == |xs|
  }

  /** The tests of `nodeids` that lie in one of `files`, in order. */
  function TestsIn(nodeids: seq<string>, files: seq<string>): (r: seq<string>)
    ensures forall t :: t in r <==> t in nodeids && FileOf(t) in files
  {
    if nodeids == [] then []
    else
      (if FileOf(nodeids[0]) in files then [nodeids[0]] else []) + TestsIn(nodeids[1..], files)
  }

  function Planned(candidateSha: string, index: nat, m: nat, nodeids: seq<string>, timings: seq<Timing>,
                   runtime: string, digest: seq<string> -> string): Manifest
    requires ValidTimings(timings) && index < m
  {
    var files := Assignment(nodeids, m, timings)[index];
    Manifest(candidateSha, index, m, runtime, digest(nodeids), nodeids, files, TestsIn(nodeids, files))
  }

  /** `plan`, run once for each shard on its own. */
  method Plan(candidateSha: string, shardIndex: int, shardCount: int, nodeids: seq<string>, timings: seq<Timing>,
              runtime: string, digest: seq<string> -> string)
    returns (r: Result<Manifest>)
    requires ValidTimings(timings)
    ensures r.Ok? <==> IsFullSha(candidateSha) && 0 <= shardIndex < shardCount <= |Files(nodeids)|
    ensures r.Ok? ==> r.value == Planned(candidateSha, shardIndex, shardCount, nodeids, timings, runtime, digest)
  {
    if !IsFullSha(candidateSha) { return Err("candidate SHA must be 40 lowercase hexadecimal characters"); }
    if shardCount <= 0 || !(0 <= shardIndex < shardCount) {
      return Err("shard index must be within the configured shard count");
    }
    var plan := AssignFiles(nodeids, shardCount, timings);
    if plan.Err? { return Err(plan.message); }
    var files := plan.value[shardIndex];
    EveryShardHasFiles(nodeids, shardCount, timings, shardIndex);
    if files == [] { return Err("shard has no assigned test files"); }
    return Ok(Manifest(candidateSha, shardIndex, shardCount, runtime, digest(nodeids), nodeids, files,
                       TestsIn(nodeids, files)));
  }

  // ----- Checking -----

  ghost predicate Disjoint(a: Manifest, b: Manifest) {
    && (forall t | t in a.nodeids :: t !in b.nodeids)
    && (forall f | f in a.files :: f !in b.files)
  }

  /** No two of shards `0..n-1` share a test or a file. */
  ghost predicate Separate(shards: map<int, Manifest>, n: nat)
    requires forall i | 0 <= i < n :: i in shards
  {
    forall i, j | 0 <= i < j < n :: Disjoint(shards[i], shards[j])
  }

  lemma SeparateGrows(shards: map<int, Manifest>, n: nat)
    requires forall i | 0 <= i <= n :: i in shards
    requires Separate(shards, n) && forall k | 0 <= k < n :: Disjoint(shards[k], shards[n])
    ensures Separate(shards, n + 1)
  {
    forall i, j | 0 <= i < j < n + 1 ensures Disjoint(shards[i], shards[j]) {
      if j < n { assert Disjoint(shards[i], shards[j]); } else { assert Disjoint(shards[i], shards[n]); }
    }
  }

  /** What the checker asks of one manifest, given the manifest of shard 0. */
  predicate ShardOk(candidateSha: string, m: nat, a: Manifest, first: Manifest) {
    && a.candidateSha == candidateSha && a.shardCount == m && a.runtime == first.runtime
    && a.inventorySha == first.inventorySha && a.inventory == first.inventory
    && a.nodeids != [] && a.files != []
    && IsInventory(a.nodeids) && IsInventory(a.files)
    && ToSet(FilesOf(a.nodeids)) == ToSet(a.files)
  }

  ghost predicate IndexedByShard(m: nat, shards: map<int, Manifest>) {
    forall i :: i in shards <==> 0 <= i < m
  }

  /** `set(manifests) == set(range(shard_count))`. */
  predicate HasEveryShard(m: nat, shards: map<int, Manifest>)
    ensures HasEveryShard(m, shards) <==> IndexedByShard(m, shards)
  {
    (forall i | i in shards :: 0 <= i < m) && (forall i | 0 <= i < m :: i in shards)
  }

  /** The shards partition the inventory, and agree with one another. */
  ghost predicate Partition(candidateSha: string, m: nat, shards: map<int, Manifest>, digest: seq<string> -> string)
    requires m > 0 && IndexedByShard(m, shards)
  {
    && IsInventory(shards[0].inventory)
    && shards[0].inventorySha == digest(shards[0].inventory)
    && (forall i | 0 <= i < m :: ShardOk(candidateSha, m, shards[i], shards[0]))
    && Separate(shards, m)
    && CoversTests(m, shards) && CoversFiles(m, shards)
  }

  ghost predicate CoversTests(m: nat, shards: map<int, Manifest>)
    requires m > 0 && IndexedByShard(m, shards)
  {
    forall t :: t in shards[0].inventory <==> exists i :: 0 <= i < m && t in shards[i].nodeids
  }

  ghost predicate CoversFiles(m: nat, shards: map<int, Manifest>)
    requires m > 0 && IndexedByShard(m, shards)
  {
    forall f :: f in FilesOf(shards[0].inventory) <==> exists i :: 0 <= i < m && f in shards[i].files
  }

  ghost predicate DistinctIndices(artifacts: seq<Manifest>) {
    forall i, j | 0 <= i < j < |artifacts| :: artifacts[i].shardIndex != artifacts[j].shardIndex
  }

  ghost function ByIndex(artifacts: seq<Manifest>): (r: map<int, Manifest>)
    requires DistinctIndices(artifacts)
    ensures forall i :: i in r <==> exists a :: a in artifacts && a.shardIndex == i
    ensures forall a | a in artifacts :: r[a.shardIndex] == a
  {
    map k | 0 <= k < |artifacts| :: artifacts[k].shardIndex := artifacts[k]
  }

  ghost predicate Accepted(candidateSha: string, m: int, artifacts: seq<Manifest>, digest: seq<string> -> string) {
    && IsFullSha(candidateSha) && m > 0 && |artifacts| == m && DistinctIndices(artifacts)
    && IndexedByShard(m, ByIndex(artifacts)) && Partition(candidateSha, m, ByIndex(artifacts), digest)
  }

  lemma ByIndexRepeats(artifacts: seq<Manifest>, n: nat)
    requires n < |artifacts| && DistinctIndices(artifacts[..n])
    requires artifacts[n].shardIndex in ByIndex(artifacts[..n])
    ensures !DistinctIndices(artifacts)
  {
    var a :| a in artifacts[..n] && a.shardIndex == artifacts[n].shardIndex;
    var k :| 0 <= k < n && artifacts[k] == a;
  }

  lemma DistinctGrows(artifacts: seq<Manifest>, n: nat)
    requires n < |artifacts| && DistinctIndices(artifacts[..n])
    requires artifacts[n].shardIndex !in ByIndex(artifacts[..n])
    ensures DistinctIndices(artifacts[..n + 1])
  {
    forall i | 0 <= i < n ensures artifacts[i].shardIndex != artifacts[n].shardIndex {
      assert artifacts[..n][i] in artifacts[..n];
    }
  }

  lemma ByIndexGrows(artifacts: seq<Manifest>, n: nat)
    requires n < |artifacts| && DistinctIndices(artifacts[..n]) && DistinctIndices(artifacts[..n + 1])
    ensures ByIndex(artifacts[..n + 1]) == ByIndex(artifacts[..n])[artifacts[n].shardIndex := artifacts[n]]
  {
    var before, last, after := artifacts[..n], artifacts[n], artifacts[..n + 1];
    assert after == before + [last];
    var r := ByIndex(before)[last.shardIndex := last];
    assert last in after;
    forall i ensures i in ByIndex(after) <==> i in r {
      assert forall b :: b in after <==> b in before || b == last;
    }
    forall i | i in r ensures ByIndex(after)[i] == r[i] {
      if i != last.shardIndex {
        var b :| b in before && b.shardIndex == i;
        assert b in after;
      }
    }
  }

  /** The manifests found in the artifact directories, by shard index. */
  method LoadManifests(artifacts: seq<Manifest>) returns (r: Result<map<int, Manifest>>)
    ensures r.Ok? <==> DistinctIndices(artifacts)
    ensures r.Ok? ==> r.value == ByIndex(artifacts)
  {
    var shards: map<int, Manifest> := map[];
    for n := 0 to |artifacts|
      invariant DistinctIndices(artifacts[..n]) && shards == ByIndex(artifacts[..n])
    {
      if artifacts[n].shardIndex in shards {
        ByIndexRepeats(artifacts, n);
        return Err("shard IDs must be unique integers");
      }
      DistinctGrows(artifacts, n);
      ByIndexGrows(artifacts, n);
      shards := shards[artifacts[n].shardIndex := artifacts[n]];
    }
    assert artifacts[..|artifacts|] == artifacts;
    return Ok(shards);
  }

  datatype Receipt = Receipt(inventoryTests: nat, inventoryFiles: nat, shardTests: seq<int>, shardFiles: seq<int>)

  function Sum(xs: seq<int>): int {
    if xs == [] then 0 else Sum(xs[..|xs| - 1]) + xs[|xs| - 1]
  }

  /** The tests, and the files, of shards `0..n-1`. */
  ghost predicate Gathered(shards: map<int, Manifest>, n: nat, tests: set<string>, files: set<string>)
    requires forall i | 0 <= i < n :: i in shards
  {
    && (forall t :: t in tests <==> exists i :: 0 <= i < n && t in shards[i].nodeids)
    && (forall f :: f in files <==> exists i :: 0 <= i < n && f in shards[i].files)
  }

  /** Shards `0..n-1` have passed, and `tests` and `files` are theirs. */
  ghost predicate Passed(candidateSha: string, m: nat, shards: map<int, Manifest>, n: nat,
                         tests: set<string>, files: set<string>)
    requires n <= m && 0 < m && IndexedByShard(m, shards)
  {
    && (forall k | 0 <= k < n :: ShardOk(candidateSha, m, shards[k], shards[0]))
    && Separate(shards, n)
    && Gathered(shards, n, tests, files)
  }

  lemma PassedGrows(candidateSha: string, m: nat, shards: map<int, Manifest>, n: nat,
                    tests: set<string>, files: set<string>)
    requires n < m && IndexedByShard(m, shards)
    requires Passed(candidateSha, m, shards, n, tests, files) && ShardOk(candidateSha, m, shards[n], shards[0])
    requires tests * ToSet(shards[n].nodeids) == {} && files * ToSet(shards[n].files) == {}
    ensures Passed(candidateSha, m, shards, n + 1, tests + ToSet(shards[n].nodeids), files + ToSet(shards[n].files))
  {
    hide ShardOk, Gathered, Separate, Disjoint;
    NoOverlap(shards, n, tests, files);
    SeparateGrows(shards, n);
  }

  ghost predicate Counted(m: nat, shards: map<int, Manifest>, n: nat, tests: nat, files: nat,
                          testCounts: seq<int>, fileCounts: seq<int>)
    requires n <= m && 0 < m && IndexedByShard(m, shards)
  {
    && Sum(testCounts) == tests && Sum(fileCounts) == files
    && |testCounts| == n == |fileCounts|
    && forall k | 0 <= k < n :: testCounts[k] == |shards[k].nodeids| && fileCounts[k] == |shards[k].files|
  }

  lemma CountedGrows(m: nat, shards: map<int, Manifest>, n: nat, tests: nat, files: nat,
                     testCounts: seq<int>, fileCounts: seq<int>)
    requires n < m && IndexedByShard(m, shards)
    requires Counted(m, shards, n, tests, files, testCounts, fileCounts)
    ensures Counted(m, shards, n + 1, tests + |shards[n].nodeids|, files + |shards[n].files|,
                    testCounts + [|shards[n].nodeids|], fileCounts + [|shards[n].files|])
  {
    SumAppend(testCounts, |shards[n].nodeids|);
    SumAppend(fileCounts, |shards[n].files|);
  }

  lemma SumAppend(xs: seq<int>, x: int)
    ensures Sum(xs + [x]) == Sum(xs) + x
  {
    assert (xs + [x])[..|xs|] == xs;
  }

  /** One turn of the loop of `verify` over the shards. */
  method CheckShard(candidateSha: string, m: nat, shards: map<int, Manifest>, n: nat,
                    tests: set<string>, files: set<string>)
    returns (ok: bool, newTests: set<string>, newFiles: set<string>)
    requires n < m && IndexedByShard(m, shards) && Passed(candidateSha, m, shards, n, tests, files)
    ensures ok ==> Passed(candidateSha, m, shards, n + 1, newTests, newFiles)
    ensures ok ==> |newTests| == |tests| + |shards[n].nodeids| && |newFiles| == |files| + |shards[n].files|
    ensures !ok ==> !ShardOk(candidateSha, m, shards[n], shards[0]) || !Separate(shards, m)
  {
    newTests, newFiles := ToSet(shards[n].nodeids), ToSet(shards[n].files);
    if !ShardOk(candidateSha, m, shards[n], shards[0]) { return false, tests, files; }
    if tests * newTests != {} || files * newFiles != {} {
      Overlap(shards, m, n, tests, files);
      return false, tests, files;
    }
    PassedGrows(candidateSha, m, shards, n, tests, files);
    DisjointUnion(tests, newTests);
    DisjointUnion(files, newFiles);
    return true, tests + newTests, files + newFiles;
  }

  lemma NothingPassed(candidateSha: string, m: nat, shards: map<int, Manifest>)
    requires m > 0 && IndexedByShard(m, shards)
    ensures Passed(candidateSha, m, shards, 0, {}, {}) && Counted(m, shards, 0, 0, 0, [], [])
  {
  }

  lemma AllPassed(candidateSha: string, m: nat, shards: map<int, Manifest>, tests: set<string>, files: set<string>)
    requires m > 0 && IndexedByShard(m, shards) && Passed(candidateSha, m, shards, m, tests, files)
    ensures Separate(shards, m) && forall i | 0 <= i < m :: ShardOk(candidateSha, m, shards[i], shards[0])
  {
  }

  /** The loop of `verify` over the shards, gathering their tests and files. */
  method CheckShards(candidateSha: string, m: nat, shards: map<int, Manifest>)
    returns (ok: bool, tests: set<string>, files: set<string>, testCounts: seq<int>, fileCounts: seq<int>)
    requires m > 0 && IndexedByShard(m, shards)
    ensures ok <==> Separate(shards, m) && forall i | 0 <= i < m :: ShardOk(candidateSha, m, shards[i], shards[0])
    ensures ok ==> Passed(candidateSha, m, shards, m, tests, files)
    ensures ok ==> Counted(m, shards, m, |tests|, |files|, testCounts, fileCounts)
  {
    hide ShardOk, Separate, Counted, Passed;
    ok, tests, files, testCounts, fileCounts := true, {}, {}, [], [];
    NothingPassed(candidateSha, m, shards);
    var n := 0;
    while n < m && ok
      invariant n <= m
      invariant ok ==> Passed(candidateSha, m, shards, n, tests, files)
      invariant ok ==> Counted(m, shards, n, |tests|, |files|, testCounts, fileCounts)
      invariant !ok ==> !Separate(shards, m) || exists i | 0 <= i < m :: !ShardOk(candidateSha, m, shards[i], shards[0])
    {
      CountedGrows(m, shards, n, |tests|, |files|, testCounts, fileCounts);
      ok, tests, files := CheckShard(candidateSha, m, shards, n, tests, files);
      testCounts, fileCounts := testCounts + [|shards[n].nodeids|], fileCounts + [|shards[n].files|];
      n := n + 1;
    }
    if ok { AllPassed(candidateSha, m, shards, tests, files); }
  }

  lemma DisjointUnion(a: set<string>, b: set<string>)
    requires a * b == {}
    ensures |a + b| == |a| + |b|
  {
  }

  lemma Overlap(shards: map<int, Manifest>, m: nat, n: nat, tests: set<string>, files: set<string>)
    requires n < m && forall k | 0 <= k < m :: k in shards
    requires Gathered(shards, n, tests, files)
    requires tests * ToSet(shards[n].nodeids) != {} || files * ToSet(shards[n].files) != {}
    ensures !Separate(shards, m)
  {
    var k;
    if tests * ToSet(shards[n].nodeids) != {} {
      var t :| t in tests * ToSet(shards[n].nodeids);
      k :| 0 <= k < n && t in shards[k].nodeids;
    } else {
      var f :| f in files * ToSet(shards[n].files);
      k :| 0 <= k < n && f in shards[k].files;
    }
    assert !Disjoint(shards[k], shards[n]);
  }

  lemma NoOverlap(shards: map<int, Manifest>, i: nat, tests: set<string>, files: set<string>)
    requires forall k | 0 <= k <= i :: k in shards
    requires Gathered(shards, i, tests, files)
    requires tests * ToSet(shards[i].nodeids) == {} && files * ToSet(shards[i].files) == {}
    ensures forall k | 0 <= k < i :: Disjoint(shards[k], shards[i])
    ensures Gathered(shards, i + 1, tests + ToSet(shards[i].nodeids), files + ToSet(shards[i].files))
  {
    forall k | 0 <= k < i ensures Disjoint(shards[k], shards[i]) {
      forall t | t in shards[k].nodeids ensures t !in shards[i].nodeids {
        assert t in tests;
        assert t !in tests * ToSet(shards[i].nodeids);
      }
      forall f | f in shards[k].files ensures f !in shards[i].files {
        assert f in files;
        assert f !in files * ToSet(shards[i].files);
      }
    }
  }

  /** The receipt counts every shard and conserves the inventory's tests and files. */
  ghost predicate Accounts(r: Receipt, m: nat, shards: map<int, Manifest>)
    requires m > 0 && IndexedByShard(m, shards)
  {
    && r.inventoryTests == |shards[0].inventory| == Sum(r.shardTests)
    && r.inventoryFiles == |ToSet(FilesOf(shards[0].inventory))| == Sum(r.shardFiles)
    && |r.shardTests| == m == |r.shardFiles|
    && forall k | 0 <= k < m :: r.shardTests[k] == |shards[k].nodeids| && r.shardFiles[k] == |shards[k].files|
  }

  /** The part of `verify` that follows the loading of the manifests. */
  method VerifyPartition(candidateSha: string, m: nat, shards: map<int, Manifest>, digest: seq<string> -> string)
    returns (r: Result<Receipt>)
    requires m > 0 && IndexedByShard(m, shards)
    ensures r.Ok? <==> Partition(candidateSha, m, shards, digest)
    ensures r.Ok? ==> Accounts(r.value, m, shards)
  {
    var inventory := shards[0].inventory;
    if !IsInventory(inventory) { return Err("full test inventory must be sorted and unique"); }
    if shards[0].inventorySha != digest(inventory) { return Err("full test inventory digest differs"); }
    var ok, tests, files, testCounts, fileCounts := CheckShards(candidateSha, m, shards);
    if !ok { return Err("a shard differs from the plan or overlaps an earlier one"); }
    r := CheckUnion(candidateSha, m, shards, tests, files, testCounts, fileCounts);
  }

  /** The final checks of `verify` and its receipt. */
  method CheckUnion(ghost candidateSha: string, ghost m: nat, shards: map<int, Manifest>, tests: set<string>,
                    files: set<string>, testCounts: seq<int>, fileCounts: seq<int>)
    returns (r: Result<Receipt>)
    requires m > 0 && IndexedByShard(m, shards) && Passed(candidateSha, m, shards, m, tests, files)
    requires Counted(m, shards, m, |tests|, |files|, testCounts, fileCounts)
    ensures r.Ok? <==> CoversTests(m, shards) && CoversFiles(m, shards)
    ensures r.Ok? && IsInventory(shards[0].inventory) ==> Accounts(r.value, m, shards)
  {
    var inventory := shards[0].inventory;
    var expectedFiles := ToSet(FilesOf(inventory));
    UnionTest(m, shards, tests, files);
    if tests != ToSet(inventory) { return Err("shard node-ID union is not the complete collected inventory"); }
    if files != expectedFiles { return Err("shard file union is not the complete collected inventory"); }
    return Ok(Receipt(|inventory|, |expectedFiles|, testCounts, fileCounts));
  }

  /** `verify`, up to the coverage and execution evidence. */
  method Verify(candidateSha: string, shardCount: int, artifacts: seq<Manifest>, digest: seq<string> -> string)
    returns (r: Result<Receipt>)
    ensures r.Ok? <==> Accepted(candidateSha, shardCount, artifacts, digest)
    ensures r.Ok? ==> Accounts(r.value, shardCount, ByIndex(artifacts))
  {
    if !IsFullSha(candidateSha) { return Err("candidate SHA must be 40 lowercase hexadecimal characters"); }
    if shardCount <= 0 { return Err("shard count must be positive"); }
    if |artifacts| != shardCount { return Err("unexpected number of shard artifact directories"); }
    var loaded := LoadManifests(artifacts);
    if loaded.Err? { return Err(loaded.message); }
    var shards := loaded.value;
    if !HasEveryShard(shardCount, shards) { return Err("shard IDs differ from expected"); }
    r := VerifyPartition(candidateSha, shardCount, shards, digest);
  }

  lemma UnionTest(m: nat, shards: map<int, Manifest>, tests: set<string>, files: set<string>)
    requires m > 0 && IndexedByShard(m, shards) && Gathered(shards, m, tests, files)
    ensures tests == ToSet(shards[0].inventory) <==> CoversTests(m, shards)
    ensures files == ToSet(FilesOf(shards[0].inventory)) <==> CoversFiles(m, shards)
  {
  }
}
