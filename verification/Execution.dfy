/** scripts/pytest_shard.py: the check of a shard's execution report, and of all of them together. */
module Execution {
  import opened Wrappers
  import opened Orders
  import opened ShardManifests
  import opened ShardAgreement
  import Text

  /** What a JUnit report calls a test. */
  type Name = (string, string)

  /** A `testsuite` element; its numbers are absent when the attributes are missing or no integers. */
  datatype Suite = Suite(
    name: string, tests: Option<int>, failures: Option<int>, errors: Option<int>, skipped: Option<int>,
    cases: seq<Name>)

  /** A parsed report; `unsuccessful` if any element in it is a failure, an error or a skip. */
  datatype Report = Report(tag: string, suites: seq<Suite>, unsuccessful: bool)

  // ----- Names -----

  function RemoveSuffix(s: string, suffix: string): string {
    if Text.EndsWith(s, suffix) then s[..|s| - |suffix|] else s
  }

  /** `s.replace("/", ".")`. */
  function Dotted(s: string): (r: string)
    ensures |r| == |s|
  {
    seq(|s|, i requires 0 <= i < |s| => if s[i] == '/' then '.' else s[i])
  }

  /** `_execution_identity`. */
  function Identity(nodeid: string): Name {
    var address := Text.Before(nodeid, "[");
    var parts := Text.Split(address, "::");
    var dotted := [Dotted(RemoveSuffix(parts[0], ".py"))] + parts[1..];
    var n := |dotted| - 1;
    (Text.Join(dotted[..n], "."), dotted[n] + nodeid[|address|..])
  }

  function Identities(nodeids: seq<string>): (r: seq<Name>)
    ensures |r| == |nodeids| && forall k | 0 <= k < |r| :: r[k] == Identity(nodeids[k])
  {
    seq(|nodeids|, k requires 0 <= k < |nodeids| => Identity(nodeids[k]))
  }

  /** `root.findall("testsuite/testcase")`. */
  function Cases(suites: seq<Suite>): seq<Name> {
    if suites == [] then [] else Cases(suites[..|suites| - 1]) + suites[|suites| - 1].cases
  }

  // ----- One report -----

  predicate SuiteOk(s: Suite) {
    s.name == "pytest" && s.tests == Some(|s.cases|) && s.failures == s.errors == s.skipped == Some(0)
  }

  /** The report lists each assigned test exactly once, nothing else, and nothing unsuccessful. */
  ghost predicate Executed(r: Report, nodeids: seq<string>) {
    && nodeids != [] && Distinct(Identities(nodeids))
    && r.tag == "testsuites" && !r.unsuccessful && (forall s | s in r.suites :: SuiteOk(s))
    && multiset(Cases(r.suites)) == multiset(Identities(nodeids))
  }

  /** `verify_execution`. */
  method VerifyExecution(r: Report, nodeids: seq<string>) returns (count: Result<nat>)
    ensures count.Ok? <==> Executed(r, nodeids)
    ensures count.Ok? ==> count.value == |nodeids|
  {
    var expected := Identities(nodeids);
    DistinctByCount(expected);
    if expected == [] || |expected| != |ToSet(expected)| {
      return Err("execution inventory is empty or has ambiguous JUnit identities");
    }
    var actual := Cases(r.suites);
    NoSuitesNoCases(r.suites);
    hide Cases, Distinct;
    SameInventory(actual, expected);
    if r.tag != "testsuites" || r.suites == [] { return Err("execution report lacks pytest suite context"); }
    if r.unsuccessful { return Err("execution report contains unsuccessful tests or collection errors"); }
    if |actual| != |ToSet(actual)| || ToSet(actual) != ToSet(expected) {
      return Err("execution testcase inventory differs from assigned node IDs");
    }
    var consistent := CheckSuites(r.suites);
    if !consistent { return Err("execution report has inconsistent pytest suite counts"); }
    SameSize(actual, expected);
    return Ok(|actual|);
  }

  method CheckSuites(suites: seq<Suite>) returns (ok: bool)
    ensures ok <==> forall s | s in suites :: SuiteOk(s)
  {
    for n := 0 to |suites|
      invariant forall k | 0 <= k < n :: SuiteOk(suites[k])
    {
      var s := suites[n];
      assert s in suites;
      if s.name != "pytest" || s.tests != Some(|s.cases|) || s.failures != Some(0) || s.errors != Some(0)
         || s.skipped != Some(0)
      {
        return false;
      }
    }
    return true;
  }

  lemma NoSuitesNoCases(suites: seq<Suite>)
    ensures suites == [] ==> Cases(suites) == []
  {
  }

  lemma SameSize(xs: seq<Name>, ys: seq<Name>)
    requires multiset(xs) == multiset(ys)
    ensures |xs| == |ys|
  {
    SameElements(xs, ys);
  }

  /** Lists without repetition hold the same elements exactly when they are rearrangements of each other. */
  lemma SameInventory(actual: seq<Name>, expected: seq<Name>)
    requires Distinct(expected)
    ensures |actual| == |ToSet(actual)| && ToSet(actual) == ToSet(expected) <==> multiset(actual) == multiset(expected)
  {
    DistinctByCount(actual);
    if multiset(actual) == multiset(expected) {
      DistinctPermutation(expected, actual);
      SameElements(actual, expected);
    } else if Distinct(actual) && ToSet(actual) == ToSet(expected) {
      forall x ensures multiset(actual)[x] == multiset(expected)[x] {
        DistinctCountsOnce(actual, x);
        DistinctCountsOnce(expected, x);
        assert x in actual <==> x in ToSet(actual);
        assert x in expected <==> x in ToSet(expected);
        assert x in multiset(actual) <==> x in actual;
        assert x in multiset(expected) <==> x in expected;
      }
    }
  }

  // ----- All reports -----

  /** Every shard has executed what it was assigned. */
  ghost predicate AllExecuted(m: nat, shards: map<int, Manifest>, reports: map<int, Report>)
    requires IndexedByShard(m, shards)
  {
    forall i | 0 <= i < m :: i in reports && Executed(reports[i], shards[i].nodeids)
  }

  function AllCases(m: nat, reports: map<int, Report>): seq<Name> {
    if m == 0 then []
    else AllCases(m - 1, reports) + if m - 1 in reports then Cases(reports[m - 1].suites) else []
  }

  /** The part of the loop of `verify` that checks the execution reports. */
  method CheckExecutions(m: nat, shards: map<int, Manifest>, reports: map<int, Report>) returns (r: Result<seq<int>>)
    requires IndexedByShard(m, shards)
    ensures r.Ok? <==> AllExecuted(m, shards, reports)
    ensures r.Ok? ==> |r.value| == m && forall k | 0 <= k < m :: r.value[k] == |shards[k].nodeids|
  {
    hide Executed;
    var executed: seq<int> := [];
    for i := 0 to m
      invariant |executed| == i
      invariant forall k | 0 <= k < i :: k in reports && Executed(reports[k], shards[k].nodeids)
      invariant forall k | 0 <= k < i :: executed[k] == |shards[k].nodeids|
    {
      if i !in reports { return Err("execution report is missing"); }
      var count := VerifyExecution(reports[i], shards[i].nodeids);
      if count.Err? { return Err(count.message); }
      executed := executed + [count.value];
    }
    return Ok(executed);
  }

  /** `verify`, with the execution reports, up to the coverage files. */
  method VerifyRun(candidateSha: string, shardCount: int, artifacts: seq<Manifest>, reports: map<int, Report>,
                   digest: seq<string> -> string)
    returns (r: Result<Receipt>, executed: seq<int>)
    ensures r.Ok? <==> Accepted(candidateSha, shardCount, artifacts, digest)
                       && AllExecuted(shardCount, ByIndex(artifacts), reports)
    ensures r.Ok? ==> Accounts(r.value, shardCount, ByIndex(artifacts)) && executed == r.value.shardTests
    ensures r.Ok? ==> Sum(executed) == |ByIndex(artifacts)[0].inventory| == |AllCases(shardCount, reports)|
  {
    hide Partition, AllCases, AllExecuted;
    executed := [];
    r := Verify(candidateSha, shardCount, artifacts, digest);
    if r.Err? { return; }
    var manifests := LoadManifests(artifacts);
    var counts := CheckExecutions(shardCount, manifests.value, reports);
    if counts.Err? { return Err(counts.message), executed; }
    executed := counts.value;
    assert executed == r.value.shardTests;
    CasesAddUp(shardCount, manifests.value, reports, executed);
  }

  lemma CasesAddUp(m: nat, shards: map<int, Manifest>, reports: map<int, Report>, executed: seq<int>)
    requires IndexedByShard(m, shards) && AllExecuted(m, shards, reports)
    requires |executed| == m && forall k | 0 <= k < m :: executed[k] == |shards[k].nodeids|
    ensures Sum(executed) == |AllCases(m, reports)|
  {
    CasesBefore(m, shards, reports, executed);
  }

  lemma {:induction false} CasesBefore(n: nat, shards: map<int, Manifest>, reports: map<int, Report>,
      executed: seq<int>)
    requires |executed| == n && forall k | 0 <= k < n ::
               k in shards && k in reports && Executed(reports[k], shards[k].nodeids)
                   && executed[k] == |shards[k].nodeids|
    ensures Sum(executed) == |AllCases(n, reports)|
  {
    if n > 0 {
      CasesBefore(n - 1, shards, reports, executed[..n - 1]);
      SameSize(Cases(reports[n - 1].suites), Identities(shards[n - 1].nodeids));
    }
  }

  /**
    Whatever is accepted with its reports ran every collected test: each test of the inventory is
    a successful case of exactly one place in the report of the one shard it belongs to.
   */
  lemma EveryTestRanOnce(candidateSha: string, m: nat, artifacts: seq<Manifest>, reports: map<int, Report>,
                         digest: seq<string> -> string, t: string)
    returns (home: nat, place: nat)
    requires Accepted(candidateSha, m, artifacts, digest) && AllExecuted(m, ByIndex(artifacts), reports)
    requires t in ByIndex(artifacts)[0].inventory
    ensures home < m && home in reports && !reports[home].unsuccessful
    ensures forall k: nat | k < m && t in ByIndex(artifacts)[k].nodeids :: k == home
    ensures var cases := Cases(reports[home].suites);
            place < |cases| && forall j | 0 <= j < |cases| :: cases[j] == Identity(t) <==> j == place
  {
    home := AcceptedShardsPartition(candidateSha, m, artifacts, digest, t);
    place := RanOnce(reports[home], ByIndex(artifacts)[home].nodeids, t);
  }

  lemma RanOnce(r: Report, nodeids: seq<string>, t: string) returns (place: nat)
    requires Executed(r, nodeids) && t in nodeids
    ensures var cases := Cases(r.suites);
            place < |cases| && forall j | 0 <= j < |cases| :: cases[j] == Identity(t) <==> j == place
  {
    var cases, names := Cases(r.suites), Identities(nodeids);
    var k :| 0 <= k < |nodeids| && nodeids[k] == t;
    assert names[k] in names;
    SameElements(cases, names);
    DistinctPermutation(names, cases);
    place :| 0 <= place < |cases| && cases[place] == Identity(t);
  }

  // ----- What a report calls a test -----

  lemma DottedMeans(path: string, i: nat)
    requires i < |path|
    ensures Dotted(path)[i] == if path[i] == '/' then '.' else path[i]
  {
  }

  lemma {:induction false} JoinAvoids(parts: seq<string>, sep: string, c: char)
    requires c !in sep && forall p | p in parts :: c !in p
    ensures c !in Text.Join(parts, sep)
  {
    if |parts| > 1 { JoinAvoids(parts[1..], sep, c); }
  }

  lemma AddressOf(address: string, parameters: string)
    requires '[' !in address && (parameters == "" || parameters[0] == '[')
    ensures Text.Before(address + parameters, "[") == address
  {
    if parameters == "" {
      Text.FindNone(address, "[");
      assert address + parameters == address;
    } else {
      assert address + parameters == address + "[" + parameters[1..];
      Text.FindFirst(address, "[", parameters[1..]);
    }
  }

  /** The address of a test: its file, then the parts of its name. */
  function Address(path: string, parts: seq<string>): string {
    path + ".py" + "::" + Text.Join(parts, "::")
  }

  lemma AddressParts(path: string, parts: seq<string>)
    requires parts != [] && ':' !in path && '[' !in path && forall p | p in parts :: ':' !in p && '[' !in p
    ensures Text.Split(Address(path, parts), "::") == [path + ".py"] + parts && '[' !in Address(path, parts)
  {
    var whole := [path + ".py"] + parts;
    assert whole[1..] == parts;
    assert Address(path, parts) == Text.Join(whole, "::");
    forall p | p in whole ensures ':' !in p && '[' !in p {
      if p == path + ".py" { assert ':' !in ".py" && '[' !in ".py"; }
    }
    hide Text.Join, Text.Split;
    JoinAvoids(whole, "::", '[');
    Text.SplitJoin(whole, "::");
  }

  /**
    The test in `path.py`, below some classes, is reported under its dotted path and classes, and
    its own name with its parameters; brackets keep what follows them as it is.
   */
  lemma IdentityOfTest(path: string, parts: seq<string>, parameters: string)
    requires parts != [] && ':' !in path && '[' !in path && forall p | p in parts :: ':' !in p && '[' !in p
    requires parameters == "" || parameters[0] == '['
    ensures Identity(Address(path, parts) + parameters)
         == (Text.Join([Dotted(path)] + parts[..|parts| - 1], "."), parts[|parts| - 1] + parameters)
  {
    AddressParts(path, parts);
    AddressOf(Address(path, parts), parameters);
    IdentityOfParts(Address(path, parts), parameters, [path + ".py"] + parts);
    PathParts(path, parts);
    hide Address, Text.Split, Text.Join, Text.Before, Dotted, Identity;
  }

  lemma PathParts(path: string, parts: seq<string>)
    requires parts != []
    ensures var whole := [path + ".py"] + parts;
            && RemoveSuffix(whole[0], ".py") == path && whole[1..] == parts
            && whole[1..|whole| - 1] == parts[..|parts| - 1] && whole[|whole| - 1] == parts[|parts| - 1]
  {
  }

  lemma IdentityOfParts(address: string, parameters: string, whole: seq<string>)
    requires Text.Before(address + parameters, "[") == address && Text.Split(address, "::") == whole && |whole| > 1
    ensures Identity(address + parameters)
         == (Text.Join([Dotted(RemoveSuffix(whole[0], ".py"))] + whole[1..|whole| - 1], "."),
             whole[|whole| - 1] + parameters)
  {
    var dotted := [Dotted(RemoveSuffix(whole[0], ".py"))] + whole[1..];
    assert dotted[..|dotted| - 1] == [Dotted(RemoveSuffix(whole[0], ".py"))] + whole[1..|whole| - 1];
    assert (address + parameters)[|address|..] == parameters;
    hide Text.Split, Text.Join, Text.Before, Dotted, RemoveSuffix;
  }

  /** The cases of a report are those of its suites, in order. */
  lemma {:induction false} CasesOfSuites(a: seq<Suite>, b: seq<Suite>)
    ensures Cases(a + b) == Cases(a) + Cases(b)
    ensures a == [] ==> Cases(a) == []
    ensures |a| == 1 ==> Cases(a) == a[0].cases
  {
    if b == [] {
      assert a + b == a;
    } else {
      var n := |b| - 1;
      assert (a + b)[..|a + b| - 1] == a + b[..n];
      CasesOfSuites(a, b[..n]);
    }
    if |a| == 1 { assert a[..0] == []; }
  }
}
