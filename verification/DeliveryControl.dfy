/** scripts/validate_progress.py: package, checklist and controller rules, and what they imply together. */
module DeliveryControl {
  import opened Wrappers
  import opened BlockedChains
  import opened Remediation
  import Orders
  import Text

  datatype Package = Package(number: int, id: string, status: string)

  /** What the validator reads from a progress document once its tables are parsed. */
  datatype Document = Document(
    packages: seq<Package>, slices: seq<Slice>, checklist: Checklist,
    /** The external inputs each checklist item needs, and those needed only when it goes live. */
    externals: map<string, seq<string>>, liveOnly: map<string, set<string>>,
    /** The register of external inputs: `PRESENT` or `MISSING`. */
    external: map<string, string>,
    controller: string, controlPackage: string, checkpoint: Option<(string, string)>,
    deferredComplete: bool)

  const ACTIVE_PACKAGE := {"NEXT", "IN PROGRESS", "REVIEW"}
  const PACKAGE_IDS := ["PKG-01", "PKG-02", "PKG-03", "PKG-04", "PKG-05",
                        "PKG-06", "PKG-07", "PKG-08", "PKG-09", "PKG-10"]

  function Externals(d: Document, id: string): seq<string> {
    if id in d.externals then d.externals[id] else []
  }

  function LiveOnly(d: Document, id: string): set<string> {
    if id in d.liveOnly then d.liveOnly[id] else {}
  }

  predicate External(d: Document, id: string, state: string) {
    id in d.external && d.external[id] == state
  }

  predicate ItemDone(d: Document, id: string) {
    var item := d.checklist.Find(id);
    item.Some? && item.value.status == "DONE"
  }

  /** `runnable`: a TODO whose dependencies are done and whose inputs, save live-only ones, are present. */
  predicate ItemRunnable(d: Document, item: Item) {
    && item.status == "TODO"
    && (forall k | k in d.checklist.Deps(item.id) :: ItemDone(d, k))
    && (forall x | x in Externals(d, item.id) && x !in LiveOnly(d, item.id) :: External(d, x, "PRESENT"))
  }

  function Owned(d: Document, package: string): seq<Item> {
    OwnedFrom(d.checklist.items, package)
  }

  function OwnedFrom(items: seq<Item>, package: string): (r: seq<Item>)
    ensures forall i :: i in r <==> i in items && i.packageId == package
  {
    if items == [] then []
    else (if items[0].packageId == package then [items[0]] else []) + OwnedFrom(items[1..], package)
  }

  /** The first row with the id. */
  function FindPackage(packages: seq<Package>, id: string): (r: Option<Package>)
    ensures r.Some? ==> r.value in packages && r.value.id == id
    ensures r.None? ==> forall p | p in packages :: p.id != id
  {
    if packages == [] then None
    else if packages[0].id == id then Some(packages[0])
    else FindPackage(packages[1..], id)
  }

  predicate AllComplete(slices: seq<Slice>) {
    slices != [] && forall s | s in slices :: s.status == "COMPLETE"
  }

  // ----- The rules -----

  predicate ItemOk(d: Document, item: Item) {
    && (item.status in {"TODO", "DONE"} || Text.StartsWith(item.status, BLOCKED))
    && (item.status == "DONE" ==>
          && (forall k | k in d.checklist.Deps(item.id) :: ItemDone(d, k))
          && (forall x | x in Externals(d, item.id) :: External(d, x, "PRESENT")))
    && (Text.StartsWith(item.status, BLOCKED) ==> NamesMissing(d, item.id, Text.Split(item.status[|BLOCKED|..], ", ")))
  }

  /** A blocked row names exactly those of its own inputs that are missing. */
  predicate NamesMissing(d: Document, id: string, named: seq<string>) {
    && (forall x | x in named :: x in Externals(d, id) && External(d, x, "MISSING"))
    && (forall x | x in Externals(d, id) && External(d, x, "MISSING") :: x in named)
  }

  predicate PackageOk(d: Document, p: Package) {
    && (p.status in ACTIVE_PACKAGE || p.status in {"QUEUED", "DONE", "BLOCKED"})
    && if p.id == "PKG-10" then RemediationPackageOk(d, p.status) else OrdinaryPackageOk(d, p.status, Owned(d, p.id))
  }

  predicate RemediationPackageOk(d: Document, status: string) {
    && (status == "DONE" <==> AllComplete(d.slices))
    && ((exists s | s in d.slices :: s.status == "ACTIVE") ==> status in ACTIVE_PACKAGE)
  }

  predicate OrdinaryPackageOk(d: Document, status: string, owned: seq<Item>) {
    && (status == "DONE" ==> forall i | i in owned :: i.status == "DONE")
    && (status == "BLOCKED" ==>
          && (exists i | i in owned :: i.status != "DONE")
          && (forall i | i in owned :: !ItemRunnable(d, i))
          && (forall i | i in owned && i.status != "DONE" :: d.checklist.BlockedChain(i.id, {})))
  }

  predicate NoActivePackage(d: Document) {
    forall p | p in d.packages :: p.status !in ACTIVE_PACKAGE
  }

  predicate OneActivePackage(d: Document, n: nat)
    requires n < |d.packages|
  {
    forall k | 0 <= k < |d.packages| :: d.packages[k].status in ACTIVE_PACKAGE <==> k == n
  }

  /** The controller rules while package `active` is the one active package. */
  predicate ActiveControllerOk(d: Document, active: Package) {
    && (forall p | p in d.packages && p.number < active.number :: p.status in {"DONE", "BLOCKED"})
    && (forall p | p in d.packages && p.number > active.number :: p.status in {"QUEUED", "BLOCKED"})
    && d.controller == "ACTIVE" && d.controlPackage == active.id && d.checkpoint.Some?
        && d.checkpoint.value.0 == active.id
    && if active.id == "PKG-10" then SliceCheckpointOk(d, d.checkpoint.value.1)
       else ItemCheckpointOk(d, active, Owned(d, active.id), d.checkpoint.value.1)
  }

  predicate InProgress(s: Slice, slices: seq<Slice>) {
    s.status == "ACTIVE" || Runnable(s, slices)
  }

  predicate SliceCheckpointOk(d: Document, checkpoint: string) {
    && checkpoint in ById(d.slices) && InProgress(ById(d.slices)[checkpoint], d.slices)
    && exists s | s in d.slices :: InProgress(s, d.slices)
  }

  /** A package in review whose items are all done is being closed, and needs nothing runnable. */
  predicate ItemCheckpointOk(d: Document, active: Package, owned: seq<Item>, id: string) {
    var closing := active.status == "REVIEW" && owned != [] && forall i | i in owned :: i.status == "DONE";
    var checkpoint := d.checklist.Find(id);
    && checkpoint.Some? && checkpoint.value.packageId == active.id
    && (closing || ItemRunnable(d, checkpoint.value))
    && (closing || exists i | i in owned :: ItemRunnable(d, i))
  }

  predicate CompleteControllerOk(d: Document) {
    && d.packages != [] && d.checklist.items != [] && AllComplete(d.slices)
    && (forall p | p in d.packages :: p.status == "DONE")
    && (forall i | i in d.checklist.items :: i.status == "DONE")
    && d.controlPackage == "PKG-09" && d.checkpoint == Some(("PKG-09", "W4-04B")) && d.deferredComplete
  }

  /** The external input a paused controller waits for. */
  function PausedFor(d: Document): string {
    if Text.StartsWith(d.controller, "PAUSED — ") then d.controller[|"PAUSED — "|..] else d.controller
  }

  predicate PausedState(d: Document) {
    && Text.StartsWith(d.controller, "PAUSED — ") && Text.StartsWith(PausedFor(d), "EXT-") && |PausedFor(d)| > 4
    && forall c | c in PausedFor(d)[4..] :: 'A' <= c <= 'Z' || '0' <= c <= '9' || c == '-'
  }

  predicate PausedControllerOk(d: Document) {
    && PausedState(d)
    && (var pointed := FindPackage(d.packages, d.controlPackage);
        pointed.Some? && pointed.value.status == "BLOCKED" && Frontier(d, pointed.value))
    && d.checkpoint.Some? && d.checkpoint.value.0 == d.controlPackage
    && (var checkpoint := d.checklist.Find(d.checkpoint.value.1);
        checkpoint.Some? && checkpoint.value.packageId == d.controlPackage)
    && External(d, PausedFor(d), "MISSING")
    && (forall i | i in d.checklist.items :: !ItemRunnable(d, i))
    && (forall s | s in d.slices :: !Runnable(s, d.slices))
    && PausedFor(d) in d.checklist.BlockerIds(d.checkpoint.value.1, {})
  }

  predicate Frontier(d: Document, pointed: Package) {
    && (forall p | p in d.packages && p.number < pointed.number :: p.status in {"DONE", "BLOCKED"})
    && (forall p | p in d.packages && p.number > pointed.number :: p.status in {"QUEUED", "BLOCKED", "DONE"})
  }

  ghost predicate ControllerOk(d: Document) {
    || (exists n: nat :: n < |d.packages| && OneActivePackage(d, n) && ActiveControllerOk(d, d.packages[n]))
    || (NoActivePackage(d) && if d.controller == "COMPLETE" then CompleteControllerOk(d) else PausedControllerOk(d))
  }

  /** A document the validator accepts, as far as these rules go. */
  ghost predicate Accepted(d: Document, canonical: seq<string>, phases: map<string, string>) {
    && |d.packages| == 10
    && (forall k | 0 <= k < 10 :: d.packages[k].number == k + 1 && d.packages[k].id == PACKAGE_IDS[k])
    && canonical != [] && RegisterOk(d.slices, canonical, phases)
    && |d.checklist.Ids()| == |d.checklist.items|
    && (forall i | i in d.checklist.items :: ItemOk(d, i))
    && (forall p | p in d.packages :: PackageOk(d, p))
    && ControllerOk(d)
  }

  // ----- What acceptance implies -----

  lemma RemediationPackage(d: Document, canonical: seq<string>, phases: map<string, string>)
    requires Accepted(d, canonical, phases)
    ensures d.packages[9].id == "PKG-10" && d.packages[9] in d.packages && PackageOk(d, d.packages[9])
    ensures d.slices != []
  {
    assert d.packages[9] in d.packages;
    assert |Ids(d.slices)| == |canonical|;
  }

  /** A paused controller has no active package. */
  lemma PausedMeansNoActivePackage(d: Document, canonical: seq<string>, phases: map<string, string>)
    requires Accepted(d, canonical, phases) && Text.StartsWith(d.controller, "PAUSED — ")
    ensures NoActivePackage(d) && PausedControllerOk(d)
  {
    assert d.controller[0] == 'P';
  }

  /**
    A controller may only be paused once the whole remediation register is finished: every slice
    is COMPLETE and PKG-10 is DONE.
   */
  lemma PausedMeansRemediationFinished(d: Document, canonical: seq<string>, phases: map<string, string>)
    requires Accepted(d, canonical, phases) && Text.StartsWith(d.controller, "PAUSED — ")
    ensures forall s | s in d.slices :: s.status == "COMPLETE"
    ensures d.packages[9].id == "PKG-10" && d.packages[9].status == "DONE"
  {
    PausedMeansNoActivePackage(d, canonical, phases);
    RemediationPackage(d, canonical, phases);
    forall s | s in d.slices ensures s.status == "COMPLETE" {
      NothingRunnableMeansComplete(d.slices, canonical, phases, s);
    }
  }

  /**
    A controller is paused for a missing input that really holds the checkpoint back: unfinished
    items, each depending on the next, lead from the checkpoint to an item blocked on that input.
   */
  lemma PausedForRealBlocker(d: Document, canonical: seq<string>, phases: map<string, string>) returns (p: seq<string>)
    requires Accepted(d, canonical, phases) && Text.StartsWith(d.controller, "PAUSED — ")
    ensures d.checkpoint.Some? && d.checklist.Blames(p, d.checkpoint.value.1, {}, PausedFor(d))
    ensures External(d, PausedFor(d), "MISSING") && !ItemDone(d, d.checkpoint.value.1)
  {
    PausedMeansNoActivePackage(d, canonical, phases);
    d.checklist.BlockerIdsAreReachable(d.checkpoint.value.1, PausedFor(d));
    p :| d.checklist.Blames(p, d.checkpoint.value.1, {}, PausedFor(d));
    if |p| > 1 { assert d.checklist.IsOpen(p[0]); }
  }

  /** Whatever the controller says, either remediation is finished or the register has work to do. */
  lemma RemediationNeverStalls(d: Document, canonical: seq<string>, phases: map<string, string>)
    requires Accepted(d, canonical, phases)
    ensures d.packages[9].status == "DONE" || exists s | s in d.slices :: s.status == "ACTIVE" || Runnable(s, d.slices)
  {
    RemediationPackage(d, canonical, phases);
    if forall s | s in d.slices :: s.status != "ACTIVE" && !Runnable(s, d.slices) {
      forall s | s in d.slices ensures s.status == "COMPLETE" {
        NothingRunnableMeansComplete(d.slices, canonical, phases, s);
      }
    }
  }

  // ----- What runnable, blocked and paused mean, said of the rows themselves -----

  ghost predicate RowWithStatus(d: Document, id: string, status: string) {
    exists i :: i in d.checklist.items && i.id == id && i.status == status
  }

  predicate LiveOnlyInput(d: Document, id: string, x: string) {
    id in d.liveOnly && x in d.liveOnly[id]
  }

  predicate InputPresent(d: Document, x: string) {
    x in d.external && d.external[x] == "PRESENT"
  }

  /** Everything the item depends on is DONE, and every input it needs before it goes live is PRESENT. */
  ghost predicate NothingMissing(d: Document, id: string) {
    && (id in d.checklist.dependencies ==> forall k | k in d.checklist.dependencies[id] :: RowWithStatus(d, k, "DONE"))
    && (id in d.externals ==> forall x | x in d.externals[id] :: LiveOnlyInput(d, id, x) || InputPresent(d, x))
  }

  /** The item depends on a row that is not DONE, or needs an input that is not PRESENT. */
  ghost predicate Waits(d: Document, id: string) {
    || (exists k :: id in d.checklist.dependencies && k in d.checklist.dependencies[id] && !RowWithStatus(d, k, "DONE"))
    || (exists x :: id in d.externals && x in d.externals[id] && !LiveOnlyInput(d, id, x) && !InputPresent(d, x))
  }

  lemma UniqueItem(c: Checklist, i: Item)
    requires |c.Ids()| == |c.items| && i in c.items
    ensures c.Find(i.id) == Some(i)
  {
    var ids := ItemIds(c.items);
    assert Orders.ToSet(ids) == c.Ids() by {
      forall id ensures id in ids <==> id in c.Ids() {
        if id in c.Ids() {
          var j :| j in c.items && j.id == id;
          var k :| 0 <= k < |c.items| && c.items[k] == j;
          assert ids[k] == id;
        }
      }
    }
    Orders.DistinctByCount(ids);
    var found := c.Find(i.id).value;
    var m :| 0 <= m < |c.items| && c.items[m] == found;
    var k :| 0 <= k < |c.items| && c.items[k] == i;
    assert ids[m] == ids[k];
  }

  function ItemIds(items: seq<Item>): (r: seq<string>)
    ensures |r| == |items| && forall k | 0 <= k < |r| :: r[k] == items[k].id
  {
    seq(|items|, k requires 0 <= k < |items| => items[k].id)
  }

  lemma DoneIsRow(d: Document, id: string)
    requires |d.checklist.Ids()| == |d.checklist.items|
    ensures ItemDone(d, id) <==> RowWithStatus(d, id, "DONE")
  {
    if RowWithStatus(d, id, "DONE") {
      var i :| i in d.checklist.items && i.id == id && i.status == "DONE";
      UniqueItem(d.checklist, i);
    }
  }

  lemma DependenciesMean(d: Document, id: string)
    requires |d.checklist.Ids()| == |d.checklist.items|
    ensures (forall k | k in d.checklist.Deps(id) :: ItemDone(d, k))
       <==> (id in d.checklist.dependencies ==>
               forall k | k in d.checklist.dependencies[id] :: RowWithStatus(d, k, "DONE"))
  {
    forall k ensures ItemDone(d, k) <==> RowWithStatus(d, k, "DONE") { DoneIsRow(d, k); }
    hide ItemDone, RowWithStatus;
  }

  lemma InputsMean(d: Document, id: string)
    ensures (forall x | x in Externals(d, id) && x !in LiveOnly(d, id) :: External(d, x, "PRESENT"))
       <==> (id in d.externals ==>
               forall x | x in d.externals[id] :: LiveOnlyInput(d, id, x) || InputPresent(d, x))
  {
    assert forall x :: x in LiveOnly(d, id) <==> LiveOnlyInput(d, id, x);
    assert forall x :: External(d, x, "PRESENT") <==> InputPresent(d, x);
    assert Externals(d, id) == if id in d.externals then d.externals[id] else [];
    hide LiveOnly, LiveOnlyInput, External, InputPresent, Externals;
  }

  lemma RunnableMeans(d: Document, item: Item)
    requires |d.checklist.Ids()| == |d.checklist.items|
    ensures ItemRunnable(d, item) <==> item.status == "TODO" && NothingMissing(d, item.id)
    ensures NothingMissing(d, item.id) <==> !Waits(d, item.id)
  {
    DependenciesMean(d, item.id);
    InputsMean(d, item.id);
    hide ItemDone, RowWithStatus, External, InputPresent, LiveOnlyInput, Checklist.Deps, Externals, LiveOnly;
  }

  /** The rules of an accepted document, for one item and for one package. */
  lemma ItemRule(d: Document, canonical: seq<string>, phases: map<string, string>, i: Item)
    requires Accepted(d, canonical, phases) && i in d.checklist.items
    ensures ItemOk(d, i) && |d.checklist.Ids()| == |d.checklist.items|
  {
    hide ItemOk, PackageOk, RegisterOk, ControllerOk;
  }

  lemma PackageRule(d: Document, canonical: seq<string>, phases: map<string, string>, p: Package)
    requires Accepted(d, canonical, phases) && p in d.packages
    ensures PackageOk(d, p) && |d.checklist.Ids()| == |d.checklist.items|
  {
    hide ItemOk, PackageOk, RegisterOk, ControllerOk;
  }

  /**
    The checkpoint of an active ordinary package is an item of that package, and unless the package
    is in review with every item done, it is a TODO for which nothing is missing.
   */
  lemma ActiveCheckpointCanStart(d: Document, canonical: seq<string>, phases: map<string, string>, p: Package)
    returns (item: Item)
    requires Accepted(d, canonical, phases) && p in d.packages && p.status in {"NEXT", "IN PROGRESS", "REVIEW"}
    requires p.id != "PKG-10"
    ensures d.controller == "ACTIVE" && d.checkpoint == Some((p.id, item.id))
    ensures item in d.checklist.items && item.packageId == p.id
    ensures || (item.status == "TODO" && NothingMissing(d, item.id))
            || (p.status == "REVIEW" && forall i | i in d.checklist.items && i.packageId == p.id :: i.status == "DONE")
  {
    var n := ActiveOne(d, canonical, phases, p);
    item := d.checklist.Find(d.checkpoint.value.1).value;
    RunnableMeans(d, item);
  }

  lemma ActiveOne(d: Document, canonical: seq<string>, phases: map<string, string>, p: Package) returns (n: nat)
    requires Accepted(d, canonical, phases) && p in d.packages && p.status in ACTIVE_PACKAGE
    ensures n < |d.packages| && d.packages[n] == p && OneActivePackage(d, n) && ActiveControllerOk(d, p)
  {
    var k :| 0 <= k < |d.packages| && d.packages[k] == p;
    assert !NoActivePackage(d);
    n :| n < |d.packages| && OneActivePackage(d, n) && ActiveControllerOk(d, d.packages[n]);
  }

  /** The checkpoint of an active PKG-10 is a slice that is ACTIVE, or QUEUED with every dependency COMPLETE. */
  lemma ActiveSliceCanStart(d: Document, canonical: seq<string>, phases: map<string, string>, p: Package)
    returns (s: Slice)
    requires Accepted(d, canonical, phases) && p in d.packages && p.status in {"NEXT", "IN PROGRESS", "REVIEW"}
    requires p.id == "PKG-10"
    ensures d.controller == "ACTIVE" && d.checkpoint == Some(("PKG-10", s.id)) && s in d.slices
    ensures || s.status == "ACTIVE"
            || (&& s.status == "QUEUED"
                && forall k | k in s.dependencies :: exists t :: t in d.slices && t.id == k && t.status == "COMPLETE")
  {
    var n := ActiveOne(d, canonical, phases, p);
    s := ById(d.slices)[d.checkpoint.value.1];
    forall k | k in s.dependencies && HasStatus(d.slices, k, "COMPLETE")
      ensures exists t :: t in d.slices && t.id == k && t.status == "COMPLETE"
    {
      assert ById(d.slices)[k] in d.slices;
    }
  }

  /** In a BLOCKED package something is left, and each TODO item waits for a dependency or an input. */
  lemma BlockedPackageWaits(d: Document, canonical: seq<string>, phases: map<string, string>, p: Package)
    requires Accepted(d, canonical, phases) && p in d.packages && p.status == "BLOCKED" && p.id != "PKG-10"
    ensures exists i :: i in d.checklist.items && i.packageId == p.id && i.status != "DONE"
    ensures forall i | i in d.checklist.items && i.packageId == p.id && i.status == "TODO" :: Waits(d, i.id)
  {
    PackageRule(d, canonical, phases, p);
    BlockedOwnerWaits(d, p);
    hide *;
  }

  lemma BlockedOwnerWaits(d: Document, p: Package)
    requires PackageOk(d, p) && |d.checklist.Ids()| == |d.checklist.items| && p.status == "BLOCKED" && p.id != "PKG-10"
    ensures exists i :: i in d.checklist.items && i.packageId == p.id && i.status != "DONE"
    ensures forall i | i in d.checklist.items && i.packageId == p.id && i.status == "TODO" :: Waits(d, i.id)
  {
    forall i | i in d.checklist.items && i.packageId == p.id && i.status == "TODO" ensures Waits(d, i.id) {
      assert i in Owned(d, p.id);
      RunnableMeans(d, i);
    }
    var left :| left in Owned(d, p.id) && left.status != "DONE";
    assert left in d.checklist.items;
  }

  /**
    While the controller is paused every TODO item waits, and every package before and after the
    pointed one is at rest.
   */
  lemma PausedMeansEverythingWaits(d: Document, canonical: seq<string>, phases: map<string, string>)
    returns (pointed: Package, input: string)
    requires Accepted(d, canonical, phases) && Text.StartsWith(d.controller, "PAUSED — ")
    ensures d.controller == "PAUSED — EXT-" + input && input != ""
    ensures forall c | c in input :: 'A' <= c <= 'Z' || '0' <= c <= '9' || c == '-'
    ensures pointed in d.packages && pointed.id == d.controlPackage && pointed.status == "BLOCKED"
    ensures forall i | i in d.checklist.items && i.status == "TODO" :: Waits(d, i.id)
    ensures forall p | p in d.packages && p.number < pointed.number :: p.status in {"DONE", "BLOCKED"}
    ensures forall p | p in d.packages && p.number > pointed.number :: p.status in {"QUEUED", "BLOCKED", "DONE"}
  {
    PausedMeansNoActivePackage(d, canonical, phases);
    assert |d.checklist.Ids()| == |d.checklist.items|;
    hide Accepted;
    pointed, input := PausedWaits(d);
  }

  lemma PausedWaits(d: Document) returns (pointed: Package, input: string)
    requires PausedControllerOk(d) && |d.checklist.Ids()| == |d.checklist.items|
    ensures d.controller == "PAUSED — EXT-" + input && input != ""
    ensures forall c | c in input :: 'A' <= c <= 'Z' || '0' <= c <= '9' || c == '-'
    ensures pointed in d.packages && pointed.id == d.controlPackage && pointed.status == "BLOCKED"
    ensures forall i | i in d.checklist.items && i.status == "TODO" :: Waits(d, i.id)
    ensures forall p | p in d.packages && p.number < pointed.number :: p.status in {"DONE", "BLOCKED"}
    ensures forall p | p in d.packages && p.number > pointed.number :: p.status in {"QUEUED", "BLOCKED", "DONE"}
  {
    pointed := FindPackage(d.packages, d.controlPackage).value;
    forall i | i in d.checklist.items && i.status == "TODO" ensures Waits(d, i.id) { RunnableMeans(d, i); }
    input := PausedText(d);
    hide FindPackage, PausedState, PausedFor, ItemRunnable, Waits, Checklist.BlockerIds;
  }

  lemma PausedText(d: Document) returns (input: string)
    requires PausedState(d)
    ensures d.controller == "PAUSED — EXT-" + input && input != ""
    ensures forall c | c in input :: 'A' <= c <= 'Z' || '0' <= c <= '9' || c == '-'
  {
    input := PausedFor(d)[4..];
    assert d.controller == "PAUSED — " + PausedFor(d) && PausedFor(d) == "EXT-" + input;
    assert "PAUSED — " + ("EXT-" + input) == "PAUSED — EXT-" + input;
  }

  /** PKG-10 is DONE exactly when there are slices and each is COMPLETE; any other DONE package has only DONE items. */
  lemma DonePackages(d: Document, canonical: seq<string>, phases: map<string, string>, p: Package)
    requires Accepted(d, canonical, phases) && p in d.packages
    ensures p.id == "PKG-10" ==>
              (p.status == "DONE" <==> d.slices != [] && forall s | s in d.slices :: s.status == "COMPLETE")
    ensures p.id != "PKG-10" && p.status == "DONE" ==>
              forall i | i in d.checklist.items && i.packageId == p.id :: i.status == "DONE"
  {
    PackageRule(d, canonical, phases, p);
    hide Accepted;
    if p.status == "DONE" && p.id != "PKG-10" {
      forall i | i in d.checklist.items && i.packageId == p.id ensures i.status == "DONE" {
        assert i in Owned(d, p.id);
      }
    }
  }

  /** A DONE item depends on DONE items only, and each of its inputs is PRESENT. */
  lemma DoneItems(d: Document, canonical: seq<string>, phases: map<string, string>, i: Item)
    requires Accepted(d, canonical, phases) && i in d.checklist.items && i.status == "DONE"
    ensures i.id in d.checklist.dependencies ==>
              forall k | k in d.checklist.dependencies[i.id] :: RowWithStatus(d, k, "DONE")
    ensures i.id in d.externals ==> forall x | x in d.externals[i.id] :: InputPresent(d, x)
  {
    ItemRule(d, canonical, phases, i);
    DoneItemMeans(d, i);
    hide *;
  }

  lemma DoneItemMeans(d: Document, i: Item)
    requires ItemOk(d, i) && |d.checklist.Ids()| == |d.checklist.items| && i.status == "DONE"
    ensures i.id in d.checklist.dependencies ==>
              forall k | k in d.checklist.dependencies[i.id] :: RowWithStatus(d, k, "DONE")
    ensures i.id in d.externals ==> forall x | x in d.externals[i.id] :: InputPresent(d, x)
  {
    DependenciesMean(d, i.id);
    assert forall x :: External(d, x, "PRESENT") <==> InputPresent(d, x);
    hide ItemDone, RowWithStatus, Checklist.Deps, NamesMissing, External, InputPresent, Text.StartsWith, Text.Split;
  }

  /** A blocked item's status lists exactly its MISSING inputs, whatever their order, and has at least one. */
  lemma BlockedItems(d: Document, canonical: seq<string>, phases: map<string, string>, i: Item)
    returns (named: seq<string>)
    requires Accepted(d, canonical, phases) && i in d.checklist.items && Text.StartsWith(i.status, "BLOCKED — ")
    ensures i.status == "BLOCKED — " + Text.Join(named, ", ") && named != []
    ensures forall x :: x in named
                   <==> i.id in d.externals && x in d.externals[i.id] && x in d.external && d.external[x] == "MISSING"
  {
    ItemRule(d, canonical, phases, i);
    named := BlockedNames(d, i);
    hide *;
  }

  lemma BlockedText(status: string) returns (named: seq<string>)
    requires Text.StartsWith(status, BLOCKED)
    ensures named == Text.Split(status[|BLOCKED|..], ", ")
    ensures status == "BLOCKED — " + Text.Join(named, ", ") && named != []
  {
    var rest := status[|BLOCKED|..];
    named := Text.Split(rest, ", ");
    Text.JoinSplit(rest, ", ");
    assert status == BLOCKED + rest;
    hide Text.Split, Text.Join;
  }

  lemma BlockedNames(d: Document, i: Item) returns (named: seq<string>)
    requires ItemOk(d, i) && Text.StartsWith(i.status, BLOCKED)
    ensures i.status == "BLOCKED — " + Text.Join(named, ", ") && named != []
    ensures forall x :: x in named
                   <==> i.id in d.externals && x in d.externals[i.id] && x in d.external && d.external[x] == "MISSING"
  {
    named := BlockedText(i.status);
    hide Text.Split, Text.Join, Text.StartsWith, ItemDone, Checklist.Deps;
    assert NamesMissing(d, i.id, named);
  }

  // ----- The rules as the rows would state them -----

  /** An unfinished item leads through open items to a blocked one. */
  ghost predicate LeadsToBlocked(d: Document, id: string) {
    exists p :: d.checklist.BlockingPath(p, {}) && p[0] == id
  }

  /** Exactly which ordinary packages the rules accept. */
  lemma OrdinaryPackagesExactly(d: Document, p: Package)
    requires |d.checklist.Ids()| == |d.checklist.items| && p.id != "PKG-10"
    ensures PackageOk(d, p)
       <==> || p.status in {"NEXT", "IN PROGRESS", "REVIEW", "QUEUED"}
            || (p.status == "DONE" && forall i | i in d.checklist.items && i.packageId == p.id :: i.status == "DONE")
            || (&& p.status == "BLOCKED"
                && (exists i :: i in d.checklist.items && i.packageId == p.id && i.status != "DONE")
                && forall i | i in d.checklist.items && i.packageId == p.id && i.status != "DONE" ::
                     LeadsToBlocked(d, i.id) && (i.status == "TODO" ==> Waits(d, i.id)))
  {
    var owned := Owned(d, p.id);
    assert forall i :: i in owned <==> i in d.checklist.items && i.packageId == p.id;
    forall i: Item
      ensures ItemRunnable(d, i) <==> i.status == "TODO" && !Waits(d, i.id)
      ensures d.checklist.BlockedChain(i.id, {}) <==> LeadsToBlocked(d, i.id)
    {
      RunnableMeans(d, i);
      d.checklist.BlockedChainIsReachability(i.id);
    }
    hide ItemRunnable, Waits, LeadsToBlocked, Owned, Checklist.BlockedChain;
  }

  /** Exactly which states of the remediation package the rules accept. */
  lemma RemediationPackageExactly(d: Document, p: Package)
    requires p.id == "PKG-10"
    ensures PackageOk(d, p)
       <==> if d.slices != [] && forall s | s in d.slices :: s.status == "COMPLETE" then p.status == "DONE"
            else if exists s | s in d.slices :: s.status == "ACTIVE" then p.status in {"NEXT", "IN PROGRESS", "REVIEW"}
            else p.status in {"NEXT", "IN PROGRESS", "REVIEW", "QUEUED", "BLOCKED"}
  {
  }

  /** Exactly which slices may be the checkpoint of an active PKG-10. */
  lemma SliceCheckpointExactly(d: Document, id: string)
    requires Orders.Distinct(Ids(d.slices))
    ensures SliceCheckpointOk(d, id)
       <==> exists s :: && s in d.slices && s.id == id
                        && (|| s.status == "ACTIVE"
                            || (&& s.status == "QUEUED"
                                && forall k | k in s.dependencies ::
                                     exists t :: t in d.slices && t.id == k && t.status == "COMPLETE"))
  {
    forall s | s in d.slices
      ensures id in ById(d.slices) && s.id == id ==> ById(d.slices)[id] == s
      ensures s.id in ById(d.slices)
    {
      UniqueRow(d.slices, s);
    }
    forall s
      ensures Remediation.Runnable(s, d.slices)
         <==> && s.status == "QUEUED"
              && forall k | k in s.dependencies :: exists t :: t in d.slices && t.id == k && t.status == "COMPLETE"
    {
      Remediation.RunnableMeans(d.slices, s);
    }
    hide Remediation.Runnable, ById;
  }

  /** Exactly which items may be the checkpoint of an active ordinary package, and that one is enough. */
  lemma ItemCheckpointExactly(d: Document, p: Package, id: string)
    requires |d.checklist.Ids()| == |d.checklist.items|
    ensures ItemCheckpointOk(d, p, Owned(d, p.id), id)
       <==> exists i :: && i in d.checklist.items && i.id == id && i.packageId == p.id
                        && (|| (i.status == "TODO" && !Waits(d, id))
                            || (p.status == "REVIEW"
                                && forall j | j in d.checklist.items && j.packageId == p.id :: j.status == "DONE"))
  {
    var owned := Owned(d, p.id);
    assert forall i :: i in owned <==> i in d.checklist.items && i.packageId == p.id;
    forall i: Item ensures ItemRunnable(d, i) <==> i.status == "TODO" && !Waits(d, i.id) { RunnableMeans(d, i); }
    forall i | i in d.checklist.items ensures d.checklist.Find(i.id) == Some(i) { UniqueItem(d.checklist, i); }
    hide ItemRunnable, Waits, Owned;
  }
}
