/** scripts/check_changed_coverage.py: which locked packages the measurement tools pull in. */
module LockClosure {
  import opened Wrappers
  import Orders
  import Text

  /** An entry of an npm lockfile; `pinned` and `unmeasured` hold the keys kept and dropped verbatim. */
  datatype Entry = Entry(
    version: Option<string>, link: bool,
    dependencies: seq<string>, optionalDependencies: seq<string>,
    peerDependencies: seq<string>, optionalPeers: set<string>,
    pinned: map<string, string>, unmeasured: map<string, string>)

  /** What is recorded of a selected entry. */
  datatype Measured = Measured(
    version: Option<string>, dependencies: seq<string>, optionalDependencies: seq<string>,
    peerDependencies: seq<string>, optionalPeers: set<string>, pinned: map<string, string>)

  type Lock = map<string, Entry>

  const TOOLS := ["vitest", "@vitest/coverage-v8", "@vitejs/plugin-react", "jsdom"]
  const SEPARATOR := "/node_modules/"

  function Measure(e: Entry): Measured {
    Measured(e.version, e.dependencies, e.optionalDependencies, e.peerDependencies, e.optionalPeers, e.pinned)
  }

  datatype Requirement = Requirement(name: string, optional: bool)

  function Requirements(e: Entry): (r: seq<Requirement>)
    ensures |r| == |e.dependencies| + |e.optionalDependencies| + |e.peerDependencies|
  {
    seq(|e.dependencies|, i requires 0 <= i < |e.dependencies| => Requirement(e.dependencies[i], false))
    + seq(|e.optionalDependencies|, i requires 0 <= i < |e.optionalDependencies| =>
        Requirement(e.optionalDependencies[i], true))
    + seq(|e.peerDependencies|, i requires 0 <= i < |e.peerDependencies| =>
        Requirement(e.peerDependencies[i], e.peerDependencies[i] in e.optionalPeers))
  }

  // ----- Nearest node_modules -----

  function Candidate(location: string, name: string): string {
    if location == "" then "node_modules/" + name else location + SEPARATOR + name
  }

  /** Where `sep` last occurs in `s` at or before `from`. */
  function FindLast(s: string, sep: string, from: nat): (r: Option<nat>)
    ensures r.Some? ==> Text.OccursAt(s, sep, r.value) && r.value <= from
  {
    if Text.OccursAt(s, sep, from) then Some(from)
    else if from == 0 then None
    else FindLast(s, sep, from - 1)
  }

  /** The enclosing package, or the root. */
  function Enclosing(location: string): (r: string)
    requires location != ""
    ensures |r| < |location|
  {
    match FindLast(location, SEPARATOR, |location|)
    case Some(i) => location[..i]
    case None => ""
  }

  /** The first of the candidate paths, innermost first, that the lock holds. */
  function Resolve(lock: Lock, location: string, name: string): (r: Option<string>)
    ensures r.Some? ==> r.value in lock
    decreases |location|
  {
    if Candidate(location, name) in lock then Some(Candidate(location, name))
    else if location == "" then None
    else Resolve(lock, Enclosing(location), name)
  }

  /** The inner function `resolve`, before it raises for a missing dependency. */
  method Locate(lock: Lock, start: string, name: string) returns (r: Option<string>)
    ensures r == Resolve(lock, start, name)
  {
    var location := start;
    while true
      invariant Resolve(lock, location, name) == Resolve(lock, start, name)
      decreases |location|
    {
      var path := Candidate(location, name);
      if path in lock { return Some(path); }
      if location == "" { return None; }
      location := Enclosing(location);
    }
  }

  /** The paths looked up to resolve a name: the hit, and every miss before it. */
  ghost predicate Probes(lock: Lock, location: string, name: string, path: string)
    decreases |location|
  {
    || path == Candidate(location, name)
    || (Candidate(location, name) !in lock && location != "" && Probes(lock, Enclosing(location), name, path))
  }

  // ----- Nearest, said of prefixes -----

  /** The root, the location, or a prefix of it that a `node_modules` directory follows. */
  predicate Encloses(prefix: string, location: string) {
    prefix == "" || prefix == location || prefix + SEPARATOR <= location
  }

  /** No two separators of the location share a slash, save at its very start. */
  ghost predicate CleanPath(location: string) {
    forall i: nat :: i > 0 && Text.OccursAt(location, SEPARATOR, i) ==> !Text.OccursAt(location, SEPARATOR, i + 13)
  }

  /** The locations searched, innermost first. */
  function Searched(location: string): seq<string>
    decreases |location|
  {
    if location == "" then [""] else [location] + Searched(Enclosing(location))
  }

  lemma {:induction false} FindLastIsLast(s: string, sep: string, from: nat)
    ensures forall i: nat | i <= from && Text.OccursAt(s, sep, i) ::
              FindLast(s, sep, from).Some? && i <= FindLast(s, sep, from).value
  {
    if !Text.OccursAt(s, sep, from) && from > 0 { FindLastIsLast(s, sep, from - 1); }
  }

  /** `rsplit` cuts at the last separator. */
  lemma EnclosingCuts(location: string) returns (last: nat)
    requires location != ""
    ensures last <= |location| && Enclosing(location) == location[..last]
    ensures last > 0 ==> Text.OccursAt(location, SEPARATOR, last)
    ensures forall i: nat | Text.OccursAt(location, SEPARATOR, i) ::
              i <= last && Text.OccursAt(location, SEPARATOR, last)
  {
    FindLastIsLast(location, SEPARATOR, |location|);
    last := |Enclosing(location)|;
  }

  lemma PrefixOccurs(prefix: string, location: string)
    ensures prefix + SEPARATOR <= location
       <==> prefix <= location && Text.OccursAt(location, SEPARATOR, |prefix|)
  {
    if prefix <= location && Text.OccursAt(location, SEPARATOR, |prefix|) {
      assert location[..|prefix| + |SEPARATOR|] == location[..|prefix|] + location[|prefix|..|prefix| + |SEPARATOR|];
    }
    if prefix + SEPARATOR <= location {
      assert (prefix + SEPARATOR)[|prefix|..] == SEPARATOR;
      assert location[..|prefix + SEPARATOR|] == prefix + SEPARATOR;
    }
  }

  lemma {:induction false} SearchedEnclose(location: string, prefix: string)
    requires prefix in Searched(location)
    ensures Encloses(prefix, location) && prefix <= location
    decreases |location|
  {
    if location != "" && prefix != location {
      var last := EnclosingCuts(location);
      SearchedEnclose(location[..last], prefix);
      PrefixOccurs(prefix, location);
      PrefixOccurs(prefix, location[..last]);
    }
  }

  /** Separators overlap in one slash at most. */
  lemma Overlap(s: string, i: nat, j: nat)
    requires i < j < i + 14 && Text.OccursAt(s, SEPARATOR, i) && Text.OccursAt(s, SEPARATOR, j)
    ensures j == i + 13
  {
    Text.OccursHead(s, SEPARATOR, j);
    assert s[j] == s[i..i + 14][j - i];
  }

  lemma OccursInFront(s: string, i: nat, n: nat)
    requires n <= |s|
    ensures Text.OccursAt(s[..n], SEPARATOR, i) <==> i + 14 <= n && Text.OccursAt(s, SEPARATOR, i)
  {
    if i + 14 <= n { assert s[..n][i..i + 14] == s[i..i + 14]; }
  }

  lemma CleanFront(location: string, n: nat)
    requires CleanPath(location) && n <= |location|
    ensures CleanPath(location[..n])
  {
    forall i: nat | i > 0 && Text.OccursAt(location[..n], SEPARATOR, i)
      ensures !Text.OccursAt(location[..n], SEPARATOR, i + 13)
    {
      OccursInFront(location, i, n);
      OccursInFront(location, i + 13, n);
    }
  }

  /** On a clean path every enclosing prefix is searched. */
  lemma {:induction false} CleanSearchesAll(location: string, prefix: string)
    requires CleanPath(location) && Encloses(prefix, location)
    ensures prefix in Searched(location)
    decreases |location|
  {
    if location != "" && prefix != location {
      var last := EnclosingCuts(location);
      var front := location[..last];
      CleanFront(location, last);
      if prefix != "" {
        PrefixOccurs(prefix, location);
        PrefixOccurs(prefix, front);
        OccursInFront(location, |prefix|, last);
        if |prefix| < last < |prefix| + 14 { Overlap(location, |prefix|, last); }
      }
      CleanSearchesAll(front, prefix);
    }
  }

  /** On any other path some enclosing prefix is not. */
  lemma {:induction false} UncleanSkips(location: string) returns (prefix: string)
    requires !CleanPath(location)
    ensures Encloses(prefix, location) && prefix !in Searched(location)
    decreases |location|
  {
    var i: nat :| i > 0 && Text.OccursAt(location, SEPARATOR, i) && Text.OccursAt(location, SEPARATOR, i + 13);
    var last := EnclosingCuts(location);
    var front := location[..last];
    OccursInFront(location, i, last);
    OccursInFront(location, i + 13, last);
    if last < i + 27 {
      if i + 13 < last { Overlap(location, i + 13, last); }
      var skipped: nat := last - 13;
      prefix := location[..skipped];
      PrefixOccurs(prefix, location);
      PrefixOccurs(prefix, front);
      OccursInFront(location, skipped, last);
      if prefix in Searched(front) { SearchedEnclose(front, prefix); }
    } else {
      prefix := UncleanSkips(front);
      PrefixOccurs(prefix, front);
      PrefixOccurs(prefix, location);
      OccursInFront(location, |prefix|, last);
      SearchesEnds(front);
    }
  }

  lemma {:induction false} SearchesEnds(location: string)
    ensures location in Searched(location) && "" in Searched(location)
    decreases |location|
  {
    if location != "" { SearchesEnds(Enclosing(location)); }
  }

  lemma CandidateInjective(a: string, b: string, name: string)
    ensures Candidate(a, name) == Candidate(b, name) <==> a == b
  {
    assert |Candidate(a, name)| == |a| + 13 + |name| + if a == "" then 0 else 1;
    if a != "" { assert Candidate(a, name)[..|a|] == a; }
    if b != "" { assert Candidate(b, name)[..|b|] == b; }
  }

  /** The package is found at the prefix, and at no longer one. */
  ghost predicate NearestAt(lock: Lock, location: string, name: string, prefix: string) {
    && Encloses(prefix, location) && Candidate(prefix, name) in lock
    && forall longer | Encloses(longer, location) && |longer| > |prefix| :: Candidate(longer, name) !in lock
  }

  lemma {:induction false} MissedEverywhere(lock: Lock, location: string, name: string)
    ensures Resolve(lock, location, name).None? <==> forall p | p in Searched(location) :: Candidate(p, name) !in lock
    decreases |location|
  {
    if location != "" { MissedEverywhere(lock, Enclosing(location), name); }
    hide Enclosing, Candidate;
  }

  lemma {:induction false} ResolvedAt(lock: Lock, location: string, name: string) returns (p: string)
    requires Resolve(lock, location, name).Some?
    ensures p in Searched(location) && Resolve(lock, location, name) == Some(Candidate(p, name))
    ensures forall q | q in Searched(location) && |q| > |p| :: Candidate(q, name) !in lock
    decreases |location|
  {
    p := location;
    if Candidate(location, name) !in lock {
      p := ResolvedAt(lock, Enclosing(location), name);
      hide Candidate, Enclosing;
    } else {
      SearchesEnds(location);
      forall q | q in Searched(location) ensures |q| <= |location| { SearchedEnclose(location, q); }
    }
  }

  lemma SearchedOnCleanPath(location: string)
    requires CleanPath(location)
    ensures forall p :: p in Searched(location) <==> Encloses(p, location)
  {
    forall p ensures p in Searched(location) <==> Encloses(p, location) {
      if p in Searched(location) { SearchedEnclose(location, p); }
      if Encloses(p, location) { CleanSearchesAll(location, p); }
    }
  }

  lemma NearestIsUnique(lock: Lock, location: string, name: string, p: string, q: string)
    requires NearestAt(lock, location, name, p) && NearestAt(lock, location, name, q)
    ensures p == q
  {
    assert |p| == |q|;
    if p != "" { assert p <= location && q <= location; }
  }

  /**
    Nearest `node_modules` without the walk: on a clean path the name resolves to its candidate at
    the longest enclosing prefix where the lock has one, and to nothing exactly when it has none.
   */
  lemma ResolveIsNearest(lock: Lock, location: string, name: string)
    requires CleanPath(location)
    ensures forall path :: Resolve(lock, location, name) == Some(path)
                      <==> exists p :: NearestAt(lock, location, name, p) && path == Candidate(p, name)
    ensures Resolve(lock, location, name).None?
       <==> forall p | Encloses(p, location) :: Candidate(p, name) !in lock
  {
    SearchedOnCleanPath(location);
    MissedEverywhere(lock, location, name);
    if Resolve(lock, location, name).Some? {
      var p := ResolvedAt(lock, location, name);
      assert NearestAt(lock, location, name, p);
      forall q | NearestAt(lock, location, name, q) ensures q == p {
        NearestIsUnique(lock, location, name, p, q);
      }
    }
    hide Resolve, Candidate, Encloses, Searched;
  }

  lemma SkippedIsMissed(location: string) returns (lock: Lock, skipped: string)
    requires !CleanPath(location)
    ensures Resolve(lock, location, "x").None? && Encloses(skipped, location) && Candidate(skipped, "x") in lock
  {
    skipped := UncleanSkips(location);
    lock := map[Candidate(skipped, "x") := Entry(Some("1"), false, [], [], [], {}, map[], map[])];
    MissedEverywhere(lock, location, "x");
    forall p | p in Searched(location) ensures Candidate(p, "x") !in lock { CandidateInjective(p, skipped, "x"); }
  }

  /**
    A lookup misses exactly what no enclosing directory has, for every lock and name, if and only
    if the path is clean.
   */
  lemma NearestExactlyOnCleanPaths(location: string)
    ensures (forall lock: Lock, name :: Resolve(lock, location, name).None?
                                   <==> forall p | Encloses(p, location) :: Candidate(p, name) !in lock)
       <==> CleanPath(location)
  {
    hide Resolve, Candidate, Encloses, CleanPath;
    if CleanPath(location) {
      forall lock: Lock, name ensures Resolve(lock, location, name).None?
                                 <==> forall p | Encloses(p, location) :: Candidate(p, name) !in lock {
        ResolveIsNearest(lock, location, name);
      }
    } else {
      var lock, skipped := SkippedIsMissed(location);
    }
  }

  /** A package name, scoped or not: `node_modules` directories do not show in it. */
  ghost predicate PlainName(name: string) {
    forall i: nat :: i > 0 ==> !Text.OccursAt(SEPARATOR + name, SEPARATOR, i)
  }

  lemma OccursAfter(front: string, rest: string, i: nat)
    ensures Text.OccursAt(front + rest, SEPARATOR, |front| + i) <==> Text.OccursAt(rest, SEPARATOR, i)
  {
    if i + 14 <= |rest| { assert (front + rest)[|front| + i..|front| + i + 14] == rest[i..i + 14]; }
  }

  lemma NestedIn(outer: string, inner: string)
    requires PlainName(inner)
    ensures Enclosing(outer + SEPARATOR + inner) == outer
  {
    var nested := outer + SEPARATOR + inner;
    assert nested == outer + (SEPARATOR + inner);
    var last := EnclosingCuts(nested);
    OccursAfter(outer, SEPARATOR + inner, 0);
    assert (SEPARATOR + inner)[0..14] == SEPARATOR;
    OccursAfter(outer, SEPARATOR + inner, last - |outer|);
    assert nested[..|outer|] == outer;
  }

  /**
    On paths as npm writes them: the package's own directory first, then the one it lies in, and
    so on to the root.
   */
  lemma DirectoriesInOrder(lock: Lock, outer: string, inner: string, name: string)
    requires PlainName(inner)
    ensures var nested := outer + "/node_modules/" + inner;
            Resolve(lock, nested, name) == (if nested + "/node_modules/" + name in lock
                                            then Some(nested + "/node_modules/" + name)
                                            else Resolve(lock, outer, name))
    ensures Resolve(lock, "", name) == if "node_modules/" + name in lock then Some("node_modules/" + name) else None
  {
    NestedIn(outer, inner);
  }

  // ----- What an entry asks for and what is kept of it -----

  /** The names of an entry's three sections; only an optional dependency or an optional peer may be missing. */
  lemma RequirementsMean(e: Entry, name: string, optional: bool)
    ensures Requirement(name, optional) in Requirements(e)
       <==> || (name in e.dependencies && !optional)
            || (name in e.optionalDependencies && optional)
            || (name in e.peerDependencies && optional == (name in e.optionalPeers))
  {
    var r, x := Requirements(e), Requirement(name, optional);
    var a, b := |e.dependencies|, |e.optionalDependencies|;
    if name in e.dependencies && !optional {
      var i :| 0 <= i < a && e.dependencies[i] == name;
      assert r[i] == x;
    }
    if name in e.optionalDependencies && optional {
      var i :| 0 <= i < b && e.optionalDependencies[i] == name;
      assert r[a + i] == x;
    }
    if name in e.peerDependencies && optional == (name in e.optionalPeers) {
      var i :| 0 <= i < |e.peerDependencies| && e.peerDependencies[i] == name;
      assert r[a + b + i] == x;
    }
  }

  /** Two entries are recorded alike exactly when they agree on everything but links and unmeasured keys. */
  lemma MeasuredAlike(a: Entry, b: Entry)
    ensures Measure(a) == Measure(b) <==> a == b.(link := a.link, unmeasured := a.unmeasured)
  {
  }

  // ----- The packages the tools reach -----

  ghost predicate IsRoot(lock: Lock, path: string) {
    exists tool :: tool in TOOLS && Resolve(lock, "", tool) == Some(path)
  }

  ghost predicate Step(lock: Lock, from: string, path: string) {
    from in lock && exists r :: r in Requirements(lock[from]) && Resolve(lock, from, r.name) == Some(path)
  }

  ghost predicate Chain(lock: Lock, c: seq<string>) {
    c != [] && IsRoot(lock, c[0]) && forall i | 0 <= i < |c| - 1 :: Step(lock, c[i], c[i + 1])
  }

  ghost predicate Reachable(lock: Lock, path: string) {
    exists c :: Chain(lock, c) && c[|c| - 1] == path
  }

  predicate ValidEntry(e: Entry) {
    e.version.Some? && !e.link
  }

  predicate RequirementsMet(lock: Lock, path: string)
    requires path in lock
  {
    forall r | r in Requirements(lock[path]) :: r.optional || Resolve(lock, path, r.name).Some?
  }

  /** The tools resolve, and everything they reach is a usable entry whose required names resolve. */
  ghost predicate Sound(lock: Lock) {
    && (forall tool | tool in TOOLS :: Resolve(lock, "", tool).Some?)
    && (forall path | Reachable(lock, path) && path in lock :: ValidEntry(lock[path]) && RequirementsMet(lock, path))
  }

  lemma ReachableStep(lock: Lock, from: string, path: string)
    requires Reachable(lock, from) && Step(lock, from, path)
    ensures Reachable(lock, path) && path in lock
  {
    var c :| Chain(lock, c) && c[|c| - 1] == from;
    var d := c + [path];
    forall i | 0 <= i < |d| - 1 ensures Step(lock, d[i], d[i + 1]) {
      if i < |c| - 1 { assert Step(lock, c[i], c[i + 1]); }
    }
    assert Chain(lock, d) && d[|d| - 1] == path;
  }

  lemma ReachableRoot(lock: Lock, path: string)
    requires IsRoot(lock, path)
    ensures Reachable(lock, path) && path in lock
  {
    assert Chain(lock, [path]) && [path][0] == path;
  }

  ghost predicate Closed(lock: Lock, paths: set<string>) {
    && (forall p | IsRoot(lock, p) :: p in paths)
    && (forall p, q | p in paths && Step(lock, p, q) :: q in paths)
  }

  lemma {:induction false} ChainStaysInside(lock: Lock, paths: set<string>, c: seq<string>)
    requires Closed(lock, paths) && Chain(lock, c)
    ensures c[|c| - 1] in paths
  {
    if |c| > 1 {
      var n := |c| - 1;
      forall i | 0 <= i < n - 1 ensures Step(lock, c[..n][i], c[..n][i + 1]) {
        assert Step(lock, c[i], c[i + 1]);
      }
      ChainStaysInside(lock, paths, c[..n]);
      assert Step(lock, c[n - 1], c[n - 1 + 1]);
    }
  }

  // ----- The worklist -----

  ghost predicate SelectedOk(lock: Lock, selected: map<string, Measured>) {
    forall p | p in selected :: p in lock && Reachable(lock, p) && selected[p] == Measure(lock[p])
                                && ValidEntry(lock[p]) && RequirementsMet(lock, p)
  }

  ghost predicate PendingOk(lock: Lock, pending: seq<Option<string>>) {
    forall w | w in pending && w.Some? :: w.value in lock && Reachable(lock, w.value)
  }

  ghost predicate RootsFound(lock: Lock, selected: map<string, Measured>, pending: seq<Option<string>>) {
    forall p | IsRoot(lock, p) :: p in selected || Some(p) in pending
  }

  ghost predicate StepsFound(lock: Lock, selected: map<string, Measured>, pending: seq<Option<string>>) {
    forall p, q | p in selected && Step(lock, p, q) :: q in selected || Some(q) in pending
  }

  /** Everything found so far is reachable, and every selected package's dependencies are found. */
  ghost predicate Progress(lock: Lock, selected: map<string, Measured>, pending: seq<Option<string>>) {
    && SelectedOk(lock, selected) && PendingOk(lock, pending)
    && RootsFound(lock, selected, pending) && StepsFound(lock, selected, pending)
  }

  /** The names of an entry resolve to exactly these packages. */
  ghost predicate FoundBy(lock: Lock, path: string, found: seq<Option<string>>) {
    && (forall w | w in found && w.Some? :: Step(lock, path, w.value))
    && (forall q | Step(lock, path, q) :: Some(q) in found)
  }

  method Roots(lock: Lock) returns (r: Result<seq<Option<string>>>)
    ensures r.Ok? <==> forall tool | tool in TOOLS :: Resolve(lock, "", tool).Some?
    ensures r.Ok? ==> Progress(lock, map[], r.value) && |r.value| == |TOOLS|
    ensures r.Err? ==> !Sound(lock)
  {
    var pending: seq<Option<string>> := [];
    for n := 0 to |TOOLS|
      invariant |pending| == n
      invariant forall k | 0 <= k < n :: Resolve(lock, "", TOOLS[k]).Some? && Resolve(lock, "", TOOLS[k]) in pending
      invariant forall w | w in pending :: w.Some? && IsRoot(lock, w.value)
    {
      var found := Locate(lock, "", TOOLS[n]);
      if found.None? {
        assert TOOLS[n] in TOOLS;
        return Err("measurement lock is missing dependency");
      }
      assert TOOLS[n] in TOOLS;
      pending := pending + [found];
    }
    forall w | w in pending && w.Some? ensures w.value in lock && Reachable(lock, w.value) {
      ReachableRoot(lock, w.value);
    }
    return Ok(pending);
  }

  /** The inner loops over the sections of an entry: what each of its names resolves to. */
  method Dependencies(lock: Lock, path: string) returns (r: Result<seq<Option<string>>>)
    requires path in lock
    ensures r.Ok? <==> RequirementsMet(lock, path)
    ensures r.Ok? ==> FoundBy(lock, path, r.value) && |r.value| == |Requirements(lock[path])|
  {
    hide Resolve;
    var found: seq<Option<string>> := [];
    var requirements := Requirements(lock[path]);
    for n := 0 to |requirements|
      invariant |found| == n
      invariant forall k | 0 <= k < n :: requirements[k].optional || Resolve(lock, path, requirements[k].name).Some?
      invariant forall k | 0 <= k < n :: Resolve(lock, path, requirements[k].name) in found
      invariant forall w | w in found && w.Some? :: Step(lock, path, w.value)
    {
      assert requirements[n] in requirements;
      var w := Locate(lock, path, requirements[n].name);
      if w.None? && !requirements[n].optional { return Err("measurement lock is missing dependency"); }
      found := found + [w];
    }
    return Ok(found);
  }

  function Without<T>(xs: seq<T>, k: nat): (r: seq<T>)
    requires k < |xs|
    ensures |r| == |xs| - 1
  {
    xs[..k] + xs[k + 1..]
  }

  /** How many names the entries at the paths ask for in all. */
  ghost function Names(lock: Lock, paths: set<string>): nat
    requires paths <= lock.Keys
  {
    if paths == {} then 0
    else
      var p :| p in paths;
      |Requirements(lock[p])| + Names(lock, paths - {p})
  }

  lemma {:induction false} NamesWithout(lock: Lock, paths: set<string>, p: string)
    requires paths <= lock.Keys && p in paths
    ensures Names(lock, paths) == |Requirements(lock[p])| + Names(lock, paths - {p})
  {
    var q :| q in paths && Names(lock, paths) == |Requirements(lock[q])| + Names(lock, paths - {q});
    if q != p {
      NamesWithout(lock, paths - {q}, p);
      NamesWithout(lock, paths - {p}, q);
      assert paths - {q} - {p} == paths - {p} - {q};
    }
  }

  lemma {:induction false} NamesGrow(lock: Lock, some: set<string>, all: set<string>)
    requires some <= all <= lock.Keys
    ensures Names(lock, some) <= Names(lock, all)
  {
    if some != all {
      var p :| p in all && p !in some;
      NamesWithout(lock, all, p);
      NamesGrow(lock, some, all - {p});
    }
  }

  /**
    The worklist of `_measurement_configuration`. The code takes the last entry each time; this
    loop takes any, so that nothing depends on the order. `turns` counts the entries taken.
   */
  method SelectPackages(lock: Lock) returns (r: Result<map<string, Measured>>, ghost turns: nat)
    ensures r.Ok? <==> Sound(lock)
    ensures r.Ok? ==> forall p :: p in r.value <==> Reachable(lock, p)
    ensures r.Ok? ==> forall p | p in r.value :: p in lock && r.value[p] == Measure(lock[p])
    ensures r.Ok? ==> |r.value| <= |lock|
    ensures turns <= |TOOLS| + Names(lock, lock.Keys)
  {
    hide *;
    turns := 0;
    AllNamed(lock);
    var roots := Roots(lock);
    if roots.Err? { return Err(roots.message), turns; }
    var work := Worklist(map[], roots.value);
    while work.pending != []
      invariant Progress(lock, work.selected, work.pending)
      invariant Accounted(lock, work.selected, |work.pending|, turns) && turns <= |TOOLS| + Names(lock, lock.Keys)
      decreases |TOOLS| + Names(lock, lock.Keys) - turns
    {
      var k: nat :| k < |work.pending|;
      var next := Turn(lock, work, k, turns);
      turns := turns + 1;
      if next.Err? { return Err(next.message), turns; }
      work := next.value;
    }
    Complete(lock, work.selected);
    WithinLock(lock, work.selected, turns);
    return Ok(work.selected), turns;
  }

  datatype Worklist = Worklist(selected: map<string, Measured>, pending: seq<Option<string>>)

  /** One turn of the loop: the entry at `k` is taken from the worklist. */
  method Turn(lock: Lock, work: Worklist, k: nat, ghost turns: nat) returns (r: Result<Worklist>)
    requires k < |work.pending| && Progress(lock, work.selected, work.pending)
    requires Accounted(lock, work.selected, |work.pending|, turns)
    ensures turns + 1 <= |TOOLS| + Names(lock, lock.Keys)
    ensures r.Ok? ==> Progress(lock, r.value.selected, r.value.pending)
    ensures r.Ok? ==> Accounted(lock, r.value.selected, |r.value.pending|, turns + 1)
    ensures r.Err? ==> !Sound(lock)
  {
    hide *;
    var selected, pending := work.selected, work.pending;
    var top, rest := pending[k], Without(pending, k);
    Reordered(lock, selected, pending, k);
    Taken(lock, selected, |rest|, turns);
    if top.None? || top.value in selected {
      Skipped(lock, selected, rest, top);
      return Ok(Worklist(selected, rest));
    }
    PendingReachable(lock, selected, pending, top);
    var found := Select(lock, top.value);
    if found.Err? { return Err(found.message); }
    Selected(lock, selected, rest, top.value, found.value);
    OneMoreNamed(lock, selected, rest, turns + 1, top.value, found.value);
    return Ok(Worklist(selected[top.value := Measure(lock[top.value])], rest + found.value));
  }

  /** Every entry taken or waiting is a tool or a name some selected entry asks for. */
  ghost predicate Accounted(lock: Lock, selected: map<string, Measured>, waiting: nat, turns: nat) {
    selected.Keys <= lock.Keys && turns + waiting == |TOOLS| + Names(lock, selected.Keys)
  }

  lemma AllNamed(lock: Lock)
    ensures Accounted(lock, map[], |TOOLS|, 0)
  {
  }

  lemma Taken(lock: Lock, selected: map<string, Measured>, rest: nat, turns: nat)
    requires Accounted(lock, selected, rest + 1, turns)
    ensures Accounted(lock, selected, rest, turns + 1) && turns + 1 <= |TOOLS| + Names(lock, lock.Keys)
  {
    NamesGrow(lock, selected.Keys, lock.Keys);
  }

  lemma OneMoreNamed(lock: Lock, selected: map<string, Measured>, rest: seq<Option<string>>, turns: nat,
                     p: string, found: seq<Option<string>>)
    requires Accounted(lock, selected, |rest|, turns) && p in lock && p !in selected
        && |found| == |Requirements(lock[p])|
    ensures Accounted(lock, selected[p := Measure(lock[p])], |rest + found|, turns)
  {
    var paths := selected[p := Measure(lock[p])].Keys;
    assert paths - {p} == selected.Keys;
    NamesWithout(lock, paths, p);
  }

  lemma WithinLock(lock: Lock, selected: map<string, Measured>, turns: nat)
    requires Accounted(lock, selected, 0, turns)
    ensures |selected| <= |lock| && turns <= |TOOLS| + Names(lock, lock.Keys)
  {
    NamesGrow(lock, selected.Keys, lock.Keys);
    Orders.SmallerSet(selected.Keys, lock.Keys);
    assert |selected| == |selected.Keys| && |lock| == |lock.Keys|;
  }

  /** Progress does not depend on the order of the worklist. */
  lemma Reordered(lock: Lock, selected: map<string, Measured>, pending: seq<Option<string>>, k: nat)
    requires Progress(lock, selected, pending) && k < |pending|
    ensures Progress(lock, selected, Without(pending, k) + [pending[k]]) && pending[k] in pending
  {
    var moved := Without(pending, k) + [pending[k]];
    assert pending == pending[..k] + [pending[k]] + pending[k + 1..];
    assert forall w :: w in moved <==> w in pending;
  }

  lemma PendingReachable(lock: Lock, selected: map<string, Measured>, pending: seq<Option<string>>, w: Option<string>)
    requires Progress(lock, selected, pending) && w in pending && w.Some?
    ensures w.value in lock && Reachable(lock, w.value)
  {
  }

  lemma Skipped(lock: Lock, selected: map<string, Measured>, rest: seq<Option<string>>, top: Option<string>)
    requires Progress(lock, selected, rest + [top]) && (top.None? || top.value in selected)
    ensures Progress(lock, selected, rest)
  {
    var before := rest + [top];
    assert forall w :: w in before <==> w in rest || w == top;
  }

  /** What one entry taken from the worklist adds to it. */
  method Select(lock: Lock, path: string) returns (r: Result<seq<Option<string>>>)
    requires path in lock && Reachable(lock, path)
    ensures r.Ok? ==> ValidEntry(lock[path]) && RequirementsMet(lock, path) && FoundBy(lock, path, r.value)
    ensures r.Ok? ==> |r.value| == |Requirements(lock[path])|
    ensures r.Err? ==> !Sound(lock)
  {
    if !ValidEntry(lock[path]) { return Err("invalid measurement lock package"); }
    r := Dependencies(lock, path);
  }

  lemma Selected(
      lock: Lock, selected: map<string, Measured>, rest: seq<Option<string>>, path: string, found: seq<Option<string>>)
    requires Progress(lock, selected, rest + [Some(path)]) && path in lock && Reachable(lock, path)
    requires ValidEntry(lock[path]) && RequirementsMet(lock, path) && FoundBy(lock, path, found)
    ensures Progress(lock, selected[path := Measure(lock[path])], rest + found)
  {
    var before, after := rest + [Some(path)], rest + found;
    assert SelectedOk(lock, selected[path := Measure(lock[path])]);
    forall w | w in after && w.Some? ensures w.value in lock && Reachable(lock, w.value) {
      if w in found { ReachableStep(lock, path, w.value); } else { assert w in before; }
    }
    assert forall w :: w in before <==> w in rest || w == Some(path);
    assert forall w :: w in after <==> w in rest || w in found;
    assert RootsFound(lock, selected[path := Measure(lock[path])], after);
    assert StepsFound(lock, selected[path := Measure(lock[path])], after);
  }

  lemma Complete(lock: Lock, selected: map<string, Measured>)
    requires Progress(lock, selected, []) && (forall tool | tool in TOOLS :: Resolve(lock, "", tool).Some?)
    ensures Sound(lock) && forall p :: p in selected <==> Reachable(lock, p)
    ensures forall p | p in selected :: p in lock && selected[p] == Measure(lock[p])
  {
    assert Closed(lock, selected.Keys);
    forall p | Reachable(lock, p) ensures p in selected {
      var c :| Chain(lock, c) && c[|c| - 1] == p;
      ChainStaysInside(lock, selected.Keys, c);
    }
  }

  /** In a sound lock each measurement tool resolves from the root and is reachable, and nothing else is a root. */
  lemma ToolsAreRoots(lock: Lock, path: string)
    requires Sound(lock)
    ensures forall tool | tool in {"vitest", "@vitest/coverage-v8", "@vitejs/plugin-react", "jsdom"} ::
              Resolve(lock, "", tool).Some? && Reachable(lock, Resolve(lock, "", tool).value)
    ensures IsRoot(lock, path)
       <==> exists tool :: tool in {"vitest", "@vitest/coverage-v8", "@vitejs/plugin-react", "jsdom"}
                           && Resolve(lock, "", tool) == Some(path)
  {
    hide Resolve, TOOLS, Requirements, ValidEntry, RequirementsMet, IsRoot, Reachable;
    RootsReachable(lock, path);
    ToolNames();
  }

  lemma RootsReachable(lock: Lock, path: string)
    requires Sound(lock)
    ensures forall tool | tool in TOOLS ::
              Resolve(lock, "", tool).Some? && Reachable(lock, Resolve(lock, "", tool).value)
    ensures IsRoot(lock, path) <==> exists tool :: tool in TOOLS && Resolve(lock, "", tool) == Some(path)
  {
    hide Resolve, TOOLS, Requirements, ValidEntry, RequirementsMet;
    forall tool | tool in TOOLS
      ensures Resolve(lock, "", tool).Some? && Reachable(lock, Resolve(lock, "", tool).value)
    {
      ReachableRoot(lock, Resolve(lock, "", tool).value);
    }
    hide Reachable;
  }

  lemma ToolNames()
    ensures forall tool :: tool in TOOLS
                      <==> tool in {"vitest", "@vitest/coverage-v8", "@vitejs/plugin-react", "jsdom"}
  {
    assert TOOLS[0] in TOOLS && TOOLS[1] in TOOLS && TOOLS[2] in TOOLS && TOOLS[3] in TOOLS;
  }

  /** In a sound lock every reachable package has a version, is no link, and finds each name it cannot do without. */
  lemma ReachableIsUsable(lock: Lock, path: string, name: string)
    requires Sound(lock) && Reachable(lock, path) && path in lock
    ensures lock[path].version.Some? && !lock[path].link
    ensures name in lock[path].dependencies
            || (name in lock[path].peerDependencies && name !in lock[path].optionalPeers) ==>
              Resolve(lock, path, name).Some? && Reachable(lock, Resolve(lock, path, name).value)
  {
    RequirementsMean(lock[path], name, false);
    if Requirement(name, false) in Requirements(lock[path]) {
      assert ValidEntry(lock[path]) && RequirementsMet(lock, path);
      ReachableStep(lock, path, Resolve(lock, path, name).value);
    }
  }

  // ----- What cannot change the selection -----

  /** Both locks lack the path, or hold entries there that differ at most in unmeasured keys. */
  predicate Agree(a: Lock, b: Lock, path: string) {
    && (path in a <==> path in b)
    && (path in a ==> a[path].link == b[path].link && Measure(a[path]) == Measure(b[path]))
  }

  /** The path is looked up when the lock is followed from the tools. */
  ghost predicate Probed(lock: Lock, path: string) {
    || (exists tool :: tool in TOOLS && Probes(lock, "", tool, path))
    || (exists from, r :: from in lock && Reachable(lock, from) && r in Requirements(lock[from])
                          && Probes(lock, from, r.name, path))
  }

  ghost predicate AgreeWhereProbed(a: Lock, b: Lock) {
    forall path | Probed(a, path) :: Agree(a, b, path)
  }

  lemma {:induction false} SameResolution(a: Lock, b: Lock, location: string, name: string)
    requires forall path | Probes(a, location, name, path) :: Agree(a, b, path)
    ensures Resolve(a, location, name) == Resolve(b, location, name)
    ensures Resolve(a, location, name).Some? ==> Probes(a, location, name, Resolve(a, location, name).value)
    decreases |location|
  {
    assert Probes(a, location, name, Candidate(location, name));
    if Candidate(location, name) !in a && location != "" {
      SameResolution(a, b, Enclosing(location), name);
    }
  }

  lemma SameRoots(a: Lock, b: Lock)
    requires AgreeWhereProbed(a, b)
    ensures forall tool | tool in TOOLS :: Resolve(a, "", tool) == Resolve(b, "", tool)
    ensures forall path :: IsRoot(a, path) <==> IsRoot(b, path)
    ensures forall path | IsRoot(a, path) :: path in a && Agree(a, b, path)
  {
    forall tool | tool in TOOLS
      ensures Resolve(a, "", tool) == Resolve(b, "", tool)
      ensures Resolve(a, "", tool).Some? ==> Agree(a, b, Resolve(a, "", tool).value)
    {
      SameResolution(a, b, "", tool);
    }
  }

  lemma SameRequirements(a: Lock, b: Lock, from: string)
    requires AgreeWhereProbed(a, b) && Reachable(a, from) && from in a && Agree(a, b, from)
    ensures Requirements(a[from]) == Requirements(b[from])
    ensures forall r | r in Requirements(a[from]) :: Resolve(a, from, r.name) == Resolve(b, from, r.name)
    ensures forall path :: Step(a, from, path) <==> Step(b, from, path)
    ensures forall path | Step(a, from, path) :: path in a && Agree(a, b, path)
  {
    forall r | r in Requirements(a[from])
      ensures Resolve(a, from, r.name) == Resolve(b, from, r.name)
      ensures Resolve(a, from, r.name).Some? ==> Agree(a, b, Resolve(a, from, r.name).value)
    {
      forall path | Probes(a, from, r.name, path) ensures Agree(a, b, path) {
        assert Probed(a, path);
      }
      SameResolution(a, b, from, r.name);
    }
  }

  lemma ChainPrefix(lock: Lock, c: seq<string>)
    requires Chain(lock, c) && |c| > 1
    ensures Chain(lock, c[..|c| - 1]) && Step(lock, c[|c| - 2], c[|c| - 1])
  {
    var n := |c| - 1;
    forall i | 0 <= i < n - 1 ensures Step(lock, c[..n][i], c[..n][i + 1]) {
      assert Step(lock, c[i], c[i + 1]);
    }
    assert Step(lock, c[n - 1], c[n - 1 + 1]);
  }

  lemma ChainExtends(lock: Lock, c: seq<string>)
    requires |c| > 1 && Chain(lock, c[..|c| - 1]) && Step(lock, c[|c| - 2], c[|c| - 1])
    ensures Chain(lock, c)
  {
    var n := |c| - 1;
    forall i | 0 <= i < n ensures Step(lock, c[i], c[i + 1]) {
      if i < n - 1 { assert Step(lock, c[..n][i], c[..n][i + 1]); }
    }
  }

  /** A chain of one path is a chain in both locks. */
  lemma SameStart(a: Lock, b: Lock, c: seq<string>)
    requires AgreeWhereProbed(a, b) && |c| == 1 && (Chain(a, c) || Chain(b, c))
    ensures Chain(a, c) && Chain(b, c) && c[0] in a && Agree(a, b, c[0])
  {
    SameRoots(a, b);
  }

  lemma LastReachable(lock: Lock, c: seq<string>)
    requires Chain(lock, c)
    ensures Reachable(lock, c[|c| - 1])
  {
  }

  lemma SameLastStep(a: Lock, b: Lock, c: seq<string>, from: string, path: string)
    requires AgreeWhereProbed(a, b) && Chain(a, c) && c[|c| - 1] == from && from in a && Agree(a, b, from)
    requires Step(a, from, path) || Step(b, from, path)
    ensures Step(a, from, path) && Step(b, from, path) && path in a && Agree(a, b, path)
  {
    LastReachable(a, c);
    SameRequirements(a, b, from);
    hide *;
  }

  /** A chain in either lock is a chain in the other. */
  lemma {:induction false} SameChains(a: Lock, b: Lock, c: seq<string>)
    requires AgreeWhereProbed(a, b) && (Chain(a, c) || Chain(b, c))
    ensures Chain(a, c) && Chain(b, c) && c[|c| - 1] in a && Agree(a, b, c[|c| - 1])
    decreases |c|
  {
    assert c != [];
    hide *;
    if |c| == 1 {
      SameStart(a, b, c);
    } else {
      var n := |c| - 1;
      var front := c[..n];
      if Chain(a, c) { ChainPrefix(a, c); } else { ChainPrefix(b, c); }
      SameChains(a, b, front);
      assert front[n - 1] == c[n - 1];
      SameLastStep(a, b, front, c[n - 1], c[n]);
      ChainExtends(a, c);
      ChainExtends(b, c);
    }
  }

  /**
    Adding, changing or removing entries that no lookup from the tools probes, and changing
    unmeasured keys anywhere, leaves the outcome as it was: same verdict, same packages, same records.
   */
  lemma UnprobedEntriesAreIrrelevant(a: Lock, b: Lock)
    requires AgreeWhereProbed(a, b)
    ensures forall p :: Reachable(a, p) <==> Reachable(b, p)
    ensures forall p | Reachable(a, p) :: p in a && p in b && Measure(a[p]) == Measure(b[p])
    ensures Sound(a) <==> Sound(b)
  {
    forall p ensures Reachable(a, p) <==> Reachable(b, p) {
      if Reachable(a, p) {
        var c :| Chain(a, c) && c[|c| - 1] == p;
        SameChains(a, b, c);
      }
      if Reachable(b, p) {
        var c :| Chain(b, c) && c[|c| - 1] == p;
        SameChains(a, b, c);
      }
    }
    forall p | Reachable(a, p)
      ensures p in a && Agree(a, b, p)
      ensures Requirements(a[p]) == Requirements(b[p])
      ensures RequirementsMet(a, p) <==> RequirementsMet(b, p)
    {
      var c :| Chain(a, c) && c[|c| - 1] == p;
      SameChains(a, b, c);
      SameRequirements(a, b, p);
    }
    SameRoots(a, b);
  }
}
