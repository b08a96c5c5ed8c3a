/** The planner and the checker of scripts/pytest_shard.py agree. */
module ShardAgreement {
  import opened Orders
  import opened Shards
  import opened ShardBalance
  import opened ShardManifests

  lemma InventoryMeans(xs: seq<string>)
    ensures IsInventory(xs) <==> Sorted(StringLeq, xs) && Distinct(xs)
  {
    StringOrder();
    DistinctByCount(xs);
    SortSorts(StringLeq, xs);
    if Sorted(StringLeq, xs) { SortOfSorted(StringLeq, xs); }
  }

  lemma {:induction false} TestsInInventory(nodeids: seq<string>, files: seq<string>)
    requires Sorted(StringLeq, nodeids) && Distinct(nodeids)
    ensures Sorted(StringLeq, TestsIn(nodeids, files)) && Distinct(TestsIn(nodeids, files))
  {
    if nodeids != [] {
      var rest := TestsIn(nodeids[1..], files);
      TestsInInventory(nodeids[1..], files);
      forall j | 0 <= j < |rest| ensures StringLeq(nodeids[0], rest[j]) && nodeids[0] != rest[j] {
        assert rest[j] in nodeids[1..];
        var k :| 1 <= k < |nodeids| && nodeids[k] == rest[j];
      }
    }
  }

  lemma FileHasTest(nodeids: seq<string>, f: string) returns (t: string)
    requires f in Files(nodeids)
    ensures t in nodeids && FileOf(t) == f
  {
    var k :| 0 <= k < |nodeids| && FilesOf(nodeids)[k] == f;
    t := nodeids[k];
  }

  lemma TestHasFile(nodeids: seq<string>, t: string)
    requires t in nodeids
    ensures FileOf(t) in FilesOf(nodeids) && FileOf(t) in Files(nodeids)
  {
    var k :| 0 <= k < |nodeids| && nodeids[k] == t;
    assert FilesOf(nodeids)[k] == FileOf(t);
  }

  /** The manifests that `plan`, run for every shard index, writes. */
  function PlanAll(candidateSha: string, m: nat, nodeids: seq<string>, timings: seq<Timing>,
                   runtime: string, digest: seq<string> -> string): (r: seq<Manifest>)
    requires ValidTimings(timings)
    ensures |r| == m
    ensures forall i | 0 <= i < m :: r[i] == Planned(candidateSha, i, m, nodeids, timings, runtime, digest)
  {
    seq(m, i requires 0 <= i < m => Planned(candidateSha, i, m, nodeids, timings, runtime, digest))
  }

  lemma PlannedFiles(nodeids: seq<string>, m: nat, timings: seq<Timing>, i: nat)
    requires ValidTimings(timings) && i < m <= |Files(nodeids)|
    ensures Assignment(nodeids, m, timings)[i] != [] && IsInventory(Assignment(nodeids, m, timings)[i])
    ensures forall f | f in Assignment(nodeids, m, timings)[i] :: f in Files(nodeids)
  {
    EveryShardHasFiles(nodeids, m, timings, i);
    ShardsAreSorted(nodeids, m, timings, i);
    InventoryMeans(Assignment(nodeids, m, timings)[i]);
    forall f | f in Assignment(nodeids, m, timings)[i] ensures f in Files(nodeids) {
      ShardsAreDisjoint(nodeids, m, timings, i, i, f);
    }
  }

  lemma TestsOfFiles(nodeids: seq<string>, files: seq<string>)
    requires forall f | f in files :: f in Files(nodeids)
    ensures forall f :: f in FilesOf(TestsIn(nodeids, files)) <==> f in files
  {
    var tests := TestsIn(nodeids, files);
    forall f | f in files ensures f in FilesOf(tests) {
      var t := FileHasTest(nodeids, f);
      TestHasFile(tests, t);
    }
    forall f | f in FilesOf(tests) ensures f in files {
      var k :| 0 <= k < |tests| && FilesOf(tests)[k] == f;
      assert tests[k] in tests;
    }
  }

  /** What the planner gives a shard is what the checker asks of it. */
  lemma PlannedTests(nodeids: seq<string>, files: seq<string>)
    requires IsInventory(nodeids) && files != [] && forall f | f in files :: f in Files(nodeids)
    ensures TestsIn(nodeids, files) != [] && IsInventory(TestsIn(nodeids, files))
    ensures ToSet(FilesOf(TestsIn(nodeids, files))) == ToSet(files)
  {
    InventoryMeans(nodeids);
    TestsInInventory(nodeids, files);
    InventoryMeans(TestsIn(nodeids, files));
    TestsOfFiles(nodeids, files);
    assert files[0] in files;
    assert files[0] in FilesOf(TestsIn(nodeids, files));
  }

  lemma PlannedShardOk(candidateSha: string, m: nat, nodeids: seq<string>, timings: seq<Timing>,
                       runtime: string, digest: seq<string> -> string, i: nat)
    requires ValidTimings(timings) && IsInventory(nodeids) && i < m <= |Files(nodeids)|
    ensures ShardOk(candidateSha, m, Planned(candidateSha, i, m, nodeids, timings, runtime, digest),
                    Planned(candidateSha, 0, m, nodeids, timings, runtime, digest))
  {
    PlannedFiles(nodeids, m, timings, i);
    PlannedTests(nodeids, Assignment(nodeids, m, timings)[i]);
  }

  lemma PlannedAreDisjoint(candidateSha: string, m: nat, nodeids: seq<string>, timings: seq<Timing>,
                           runtime: string, digest: seq<string> -> string, i: nat, k: nat)
    requires ValidTimings(timings) && i < k < m
    ensures Disjoint(Planned(candidateSha, i, m, nodeids, timings, runtime, digest),
                     Planned(candidateSha, k, m, nodeids, timings, runtime, digest))
  {
    var a := Planned(candidateSha, i, m, nodeids, timings, runtime, digest);
    var b := Planned(candidateSha, k, m, nodeids, timings, runtime, digest);
    forall f | f in a.files ensures f !in b.files {
      ShardsAreDisjoint(nodeids, m, timings, i, k, f);
    }
  }

  lemma PlannedTestHome(nodeids: seq<string>, m: nat, timings: seq<Timing>, t: string) returns (i: nat)
    requires ValidTimings(timings) && m > 0 && t in nodeids
    ensures i < m && t in TestsIn(nodeids, Assignment(nodeids, m, timings)[i])
  {
    TestHasFile(nodeids, t);
    i := EveryFileIsAssigned(nodeids, m, timings, FileOf(t));
  }

  lemma PlannedCover(m: nat, nodeids: seq<string>, timings: seq<Timing>, shards: map<int, Manifest>)
    requires ValidTimings(timings) && m > 0 && IndexedByShard(m, shards)
    requires forall i | 0 <= i < m ::
               && shards[i].inventory == nodeids && shards[i].files == Assignment(nodeids, m, timings)[i]
               && shards[i].nodeids == TestsIn(nodeids, shards[i].files)
    ensures CoversTests(m, shards) && CoversFiles(m, shards)
  {
    PlannedCoverTests(m, nodeids, timings, shards);
    PlannedCoverFiles(m, nodeids, timings, shards);
  }

  lemma PlannedCoverTests(m: nat, nodeids: seq<string>, timings: seq<Timing>, shards: map<int, Manifest>)
    requires ValidTimings(timings) && m > 0 && IndexedByShard(m, shards)
    requires forall i | 0 <= i < m ::
               && shards[i].inventory == nodeids && shards[i].files == Assignment(nodeids, m, timings)[i]
               && shards[i].nodeids == TestsIn(nodeids, shards[i].files)
    ensures CoversTests(m, shards)
  {
    forall t ensures t in nodeids <==> exists i :: 0 <= i < m && t in shards[i].nodeids {
      if t in nodeids {
        var i := PlannedTestHome(nodeids, m, timings, t);
        assert t in shards[i].nodeids;
      }
    }
  }

  lemma PlannedCoverFiles(m: nat, nodeids: seq<string>, timings: seq<Timing>, shards: map<int, Manifest>)
    requires ValidTimings(timings) && m > 0 && IndexedByShard(m, shards)
    requires forall i | 0 <= i < m ::
               shards[i].inventory == nodeids && shards[i].files == Assignment(nodeids, m, timings)[i]
    ensures CoversFiles(m, shards)
  {
    forall f ensures f in FilesOf(nodeids) <==> exists i :: 0 <= i < m && f in shards[i].files {
      if f in FilesOf(nodeids) {
        var i := EveryFileIsAssigned(nodeids, m, timings, f);
        assert f in shards[i].files;
      } else if exists i :: 0 <= i < m && f in shards[i].files {
        var i :| 0 <= i < m && f in shards[i].files;
        ShardsAreDisjoint(nodeids, m, timings, i, i, f);
      }
    }
  }

  /** Planned shards, each in its place, pass every partition check. */
  lemma PlannedPartition(candidateSha: string, m: nat, nodeids: seq<string>, timings: seq<Timing>,
                         runtime: string, digest: seq<string> -> string, shards: map<int, Manifest>)
    requires ValidTimings(timings) && IsInventory(nodeids) && 0 < m <= |Files(nodeids)| && IndexedByShard(m, shards)
    requires forall i: nat | i < m :: shards[i] == Planned(candidateSha, i, m, nodeids, timings, runtime, digest)
    ensures Partition(candidateSha, m, shards, digest)
  {
    PlannedShardsOk(candidateSha, m, nodeids, timings, runtime, digest, shards);
    PlannedSeparate(candidateSha, m, nodeids, timings, runtime, digest, shards);
    PlannedCover(m, nodeids, timings, shards);
  }

  lemma PlannedShardsOk(candidateSha: string, m: nat, nodeids: seq<string>, timings: seq<Timing>,
                        runtime: string, digest: seq<string> -> string, shards: map<int, Manifest>)
    requires ValidTimings(timings) && IsInventory(nodeids) && 0 < m <= |Files(nodeids)| && IndexedByShard(m, shards)
    requires forall i: nat | i < m :: shards[i] == Planned(candidateSha, i, m, nodeids, timings, runtime, digest)
    ensures forall i | 0 <= i < m :: ShardOk(candidateSha, m, shards[i], shards[0])
  {
    hide ShardOk, Planned, Files, IsInventory, FileOf;
    forall i | 0 <= i < m ensures ShardOk(candidateSha, m, shards[i], shards[0]) {
      PlannedShardOk(candidateSha, m, nodeids, timings, runtime, digest, i);
    }
  }

  lemma PlannedSeparate(candidateSha: string, m: nat, nodeids: seq<string>, timings: seq<Timing>,
                        runtime: string, digest: seq<string> -> string, shards: map<int, Manifest>)
    requires ValidTimings(timings) && IndexedByShard(m, shards)
    requires forall i: nat | i < m :: shards[i] == Planned(candidateSha, i, m, nodeids, timings, runtime, digest)
    ensures Separate(shards, m)
  {
    forall i, k | 0 <= i < k < m ensures Disjoint(shards[i], shards[k]) {
      PlannedAreDisjoint(candidateSha, m, nodeids, timings, runtime, digest, i, k);
    }
  }

  lemma PlannedIndex(candidateSha: string, m: nat, nodeids: seq<string>, timings: seq<Timing>,
                     runtime: string, digest: seq<string> -> string, artifacts: seq<Manifest>)
    requires ValidTimings(timings)
    requires multiset(artifacts) == multiset(PlanAll(candidateSha, m, nodeids, timings, runtime, digest))
    ensures |artifacts| == m && DistinctIndices(artifacts) && IndexedByShard(m, ByIndex(artifacts))
    ensures forall i: nat | i < m ::
              ByIndex(artifacts)[i] == Planned(candidateSha, i, m, nodeids, timings, runtime, digest)
  {
    var plan := PlanAll(candidateSha, m, nodeids, timings, runtime, digest);
    SameElements(artifacts, plan);
    DistinctPermutation(plan, artifacts);
    forall a | a in artifacts ensures 0 <= a.shardIndex < m && a == plan[a.shardIndex] {
      assert a in plan;
    }
    forall i: nat | i < m ensures i in ByIndex(artifacts) {
      assert plan[i] in plan;
      assert plan[i] in artifacts && plan[i].shardIndex == i;
    }
  }

  /**
    The checker accepts the manifests of all the shards of a plan, in whatever order their
    directories are listed, for every collected inventory and every admissible shard count.
   */
  lemma PlannedManifestsAreAccepted(
      candidateSha: string, m: nat, nodeids: seq<string>, timings: seq<Timing>,
      runtime: string, digest: seq<string> -> string, artifacts: seq<Manifest>)
    requires ValidTimings(timings) && IsFullSha(candidateSha) && IsInventory(nodeids) && 0 < m <= |Files(nodeids)|
    requires multiset(artifacts) == multiset(PlanAll(candidateSha, m, nodeids, timings, runtime, digest))
    ensures Accepted(candidateSha, m, artifacts, digest)
  {
    PlannedIndex(candidateSha, m, nodeids, timings, runtime, digest, artifacts);
    PlannedPartition(candidateSha, m, nodeids, timings, runtime, digest, ByIndex(artifacts));
  }

  // ----- What acceptance means -----

  lemma SharedTest(m: nat, shards: map<int, Manifest>, i: nat, k: nat, t: string)
    requires IndexedByShard(m, shards) && Separate(shards, m) && i < m && k < m
    requires t in shards[i].nodeids && t in shards[k].nodeids
    ensures i == k
  {
  }

  lemma SharedFile(m: nat, shards: map<int, Manifest>, i: nat, k: nat, f: string)
    requires IndexedByShard(m, shards) && Separate(shards, m) && i < m && k < m
    requires f in shards[i].files && f in shards[k].files
    ensures i == k
  {
  }

  lemma FileOfTestIsListed(candidateSha: string, m: nat, shards: map<int, Manifest>, i: nat, t: string)
    requires IndexedByShard(m, shards) && i < m && ShardOk(candidateSha, m, shards[i], shards[0])
    requires t in shards[i].nodeids
    ensures FileOf(t) in shards[i].files
  {
    TestHasFile(shards[i].nodeids, t);
    assert FileOf(t) in ToSet(shards[i].files);
  }

  /** Two inventoried tests of one file run in the same shard. */
  lemma SameFileSameShard(candidateSha: string, m: nat, shards: map<int, Manifest>, digest: seq<string> -> string,
                          t: string, i: nat, u: string, k: nat)
    requires m > 0 && IndexedByShard(m, shards) && Partition(candidateSha, m, shards, digest)
    requires i < m && t in shards[i].nodeids && k < m && u in shards[k].nodeids && FileOf(t) == FileOf(u)
    ensures i == k
  {
    FileOfTestIsListed(candidateSha, m, shards, i, t);
    FileOfTestIsListed(candidateSha, m, shards, k, u);
    SharedFile(m, shards, i, k, FileOf(t));
  }

  /**
    Whatever the checker accepts runs every test of the inventory in exactly one shard, and in
    the same shard as every other test of its file; no shard runs anything else.
   */
  lemma AcceptedShardsPartition(candidateSha: string, m: nat, artifacts: seq<Manifest>,
      digest: seq<string> -> string, t: string)
    returns (home: nat)
    requires Accepted(candidateSha, m, artifacts, digest)
    requires t in ByIndex(artifacts)[0].inventory
    ensures home < m && t in ByIndex(artifacts)[home].nodeids
    ensures forall k: nat | k < m && t in ByIndex(artifacts)[k].nodeids :: k == home
    ensures forall u | u in ByIndex(artifacts)[0].inventory && FileOf(u) == FileOf(t) ::
        u in ByIndex(artifacts)[home].nodeids
    ensures forall k: nat, u | k < m && u in ByIndex(artifacts)[k].nodeids :: u in ByIndex(artifacts)[0].inventory
  {
    home := PartitionHome(candidateSha, m, ByIndex(artifacts), digest, t);
  }

  lemma PartitionHome(candidateSha: string, m: nat, shards: map<int, Manifest>, digest: seq<string> -> string,
      t: string)
    returns (home: nat)
    requires m > 0 && IndexedByShard(m, shards) && Partition(candidateSha, m, shards, digest)
    requires t in shards[0].inventory
    ensures home < m && t in shards[home].nodeids
    ensures forall k: nat | k < m && t in shards[k].nodeids :: k == home
    ensures forall u | u in shards[0].inventory && FileOf(u) == FileOf(t) :: u in shards[home].nodeids
    ensures forall k: nat, u | k < m && u in shards[k].nodeids :: u in shards[0].inventory
  {
    home := TestHome(m, shards, t);
    assert Separate(shards, m) && CoversTests(m, shards);
    forall u | u in shards[0].inventory && FileOf(u) == FileOf(t) ensures u in shards[home].nodeids {
      var k := TestHome(m, shards, u);
      SameFileSameShard(candidateSha, m, shards, digest, t, home, u, k);
    }
  }

  lemma TestHome(m: nat, shards: map<int, Manifest>, t: string) returns (home: nat)
    requires m > 0 && IndexedByShard(m, shards) && Separate(shards, m) && CoversTests(m, shards)
    requires t in shards[0].inventory
    ensures home < m && t in shards[home].nodeids
    ensures forall k: nat | k < m && t in shards[k].nodeids :: k == home
    ensures forall k: nat, u | k < m && u in shards[k].nodeids :: u in shards[0].inventory
  {
    home :| 0 <= home < m && t in shards[home].nodeids;
    forall k: nat | k < m && t in shards[k].nodeids ensures k == home {
      SharedTest(m, shards, k, home, t);
    }
  }

  /**
    On the texts themselves: two inventoried tests named below one file run in one accepted shard,
    which lists the file; no other shard runs either or lists it.
   */
  lemma TestsOfOneFileTogether(candidateSha: string, m: nat, artifacts: seq<Manifest>, digest: seq<string> -> string,
                               file: string, test: string, other: string)
    returns (home: nat)
    requires Accepted(candidateSha, m, artifacts, digest) && ':' !in file
    requires TestId(file, test) in ByIndex(artifacts)[0].inventory
    requires TestId(file, other) in ByIndex(artifacts)[0].inventory
    ensures home < m && file in ByIndex(artifacts)[home].files
    ensures TestId(file, test) in ByIndex(artifacts)[home].nodeids
    ensures TestId(file, other) in ByIndex(artifacts)[home].nodeids
    ensures forall k: nat | k < m && (TestId(file, test) in ByIndex(artifacts)[k].nodeids
                                      || file in ByIndex(artifacts)[k].files) :: k == home
  {
    home := FileTogether(candidateSha, m, ByIndex(artifacts), digest, file, test, other);
  }

  lemma FileTogether(candidateSha: string, m: nat, shards: map<int, Manifest>, digest: seq<string> -> string,
                     file: string, test: string, other: string)
    returns (home: nat)
    requires m > 0 && IndexedByShard(m, shards) && Partition(candidateSha, m, shards, digest) && ':' !in file
    requires TestId(file, test) in shards[0].inventory && TestId(file, other) in shards[0].inventory
    ensures home < m && file in shards[home].files
    ensures TestId(file, test) in shards[home].nodeids && TestId(file, other) in shards[home].nodeids
    ensures forall k: nat | k < m && (TestId(file, test) in shards[k].nodeids || file in shards[k].files) :: k == home
  {
    FileOfTest(file, test);
    FileOfTest(file, other);
    home := PartitionHome(candidateSha, m, shards, digest, TestId(file, test));
    FileOfTestIsListed(candidateSha, m, shards, home, TestId(file, test));
    FileHome(candidateSha, m, shards, digest, file, home);
    hide *;
  }

  lemma FileHome(candidateSha: string, m: nat, shards: map<int, Manifest>, digest: seq<string> -> string,
                 file: string, home: nat)
    requires m > 0 && IndexedByShard(m, shards) && Partition(candidateSha, m, shards, digest)
    requires home < m && file in shards[home].files
    ensures forall k: nat | k < m && file in shards[k].files :: k == home
  {
    forall k: nat | k < m && file in shards[k].files ensures k == home {
      SharedFile(m, shards, k, home, file);
    }
  }

  /** What all accepted manifests say alike: the commit, the count, the runtime, the inventory and its digest. */
  lemma AcceptedManifestsAgree(candidateSha: string, m: nat, artifacts: seq<Manifest>, digest: seq<string> -> string,
                               a: Manifest, b: Manifest)
    requires Accepted(candidateSha, m, artifacts, digest) && a in artifacts && b in artifacts
    ensures |artifacts| == m && 0 <= a.shardIndex < m && (a.shardIndex == b.shardIndex ==> a == b)
    ensures a.candidateSha == candidateSha && a.shardCount == m
    ensures |candidateSha| == 40 && forall c | c in candidateSha :: c in Text.HEX
    ensures a.runtime == b.runtime && a.inventory == b.inventory && a.inventorySha == digest(a.inventory)
    ensures a.nodeids != [] && Sorted(StringLeq, a.nodeids) && Distinct(a.nodeids)
    ensures a.files != [] && Sorted(StringLeq, a.files) && Distinct(a.files)
    ensures forall f :: f in a.files <==> exists t :: t in a.nodeids && FileOf(t) == f
  {
    var shards := ByIndex(artifacts);
    assert shards[a.shardIndex] == a && shards[b.shardIndex] == b;
    assert ShardOk(candidateSha, m, a, shards[0]) && ShardOk(candidateSha, m, b, shards[0]);
    ShardMeans(candidateSha, m, a, shards[0]);
    ShardMeans(candidateSha, m, b, shards[0]);
    Text.HexDigits(candidateSha);
    hide ShardOk, Sorted, Distinct, Separate, CoversTests, CoversFiles, IsInventory;
  }

  lemma ShardMeans(candidateSha: string, m: nat, a: Manifest, first: Manifest)
    requires ShardOk(candidateSha, m, a, first)
    ensures a.candidateSha == candidateSha && a.shardCount == m && a.runtime == first.runtime
    ensures a.inventory == first.inventory && a.inventorySha == first.inventorySha
    ensures a.nodeids != [] && Sorted(StringLeq, a.nodeids) && Distinct(a.nodeids)
    ensures a.files != [] && Sorted(StringLeq, a.files) && Distinct(a.files)
    ensures forall f :: f in a.files <==> exists t :: t in a.nodeids && FileOf(t) == f
  {
    InventoryMeans(a.nodeids);
    InventoryMeans(a.files);
    forall f ensures f in a.files <==> exists t :: t in a.nodeids && FileOf(t) == f {
      assert f in a.files <==> f in ToSet(FilesOf(a.nodeids));
      FileListed(a.nodeids, f);
    }
  }

  lemma FileListed(nodeids: seq<string>, f: string)
    ensures f in FilesOf(nodeids) <==> exists t :: t in nodeids && FileOf(t) == f
  {
    if f in FilesOf(nodeids) {
      var k :| 0 <= k < |nodeids| && FilesOf(nodeids)[k] == f;
      assert nodeids[k] in nodeids && FileOf(nodeids[k]) == f;
    }
    if t :| t in nodeids && FileOf(t) == f {
      var k :| 0 <= k < |nodeids| && nodeids[k] == t;
      assert FilesOf(nodeids)[k] == f;
    }
  }
}
