/** scripts/validate_progress.py: the checks `validate_text` makes on a parsed document, error by error. */
module DeliveryChecks {
  import opened Wrappers
  import opened BlockedChains
  import opened Remediation
  import opened DeliveryControl
  import opened Orders
  import Text

  /** The errors of a whole document: none exactly when the document is accepted. */
  method CheckDocument(d: Document, canonical: seq<string>, phases: map<string, string>) returns (errors: seq<Problem>)
    requires canonical != []
    ensures errors == [] <==> Accepted(d, canonical, phases)
  {
    var rows := CheckRows(d.packages);
    var register := CheckRegister(d.slices, canonical, phases);
    var items := CheckItems(d);
    var packages := CheckPackages(d);
    var controller := CheckController(d);
    errors := rows + register + items + packages + controller;
  }

  method CheckRows(packages: seq<Package>) returns (errors: seq<Problem>)
    ensures errors == []
       <==> && |packages| == 10
            && forall k | 0 <= k < 10 :: packages[k].number == k + 1 && packages[k].id == PACKAGE_IDS[k]
  {
    errors := When(|packages| != 10, "", "package rows must be exactly PKG-01 through PKG-10");
    for k := 0 to |packages|
      invariant errors == [] <==>
        |packages| == 10 && forall j | 0 <= j < k :: packages[j].number == j + 1 && packages[j].id == PACKAGE_IDS[j]
    {
      if k < 10 && (packages[k].number != k + 1 || packages[k].id != PACKAGE_IDS[k]) {
        errors := errors + [Problem(packages[k].id, "package is out of order")];
      }
    }
  }

  method CheckItems(d: Document) returns (errors: seq<Problem>)
    ensures errors == [] <==>
      |d.checklist.Ids()| == |d.checklist.items| && forall i | i in d.checklist.items :: ItemOk(d, i)
  {
    var items := d.checklist.items;
    var unique := |d.checklist.Ids()| == |items|;
    errors := When(!unique, "", "checklist ids must be unique");
    for n := 0 to |items|
      invariant errors == [] <==> unique && forall k | 0 <= k < n :: ItemOk(d, items[k])
    {
      var problems := CheckItem(d, items[n]);
      errors := errors + problems;
    }
  }

  method CheckItem(d: Document, item: Item) returns (errors: seq<Problem>)
    ensures errors == [] <==> ItemOk(d, item)
  {
    var blocked := Text.StartsWith(item.status, BLOCKED);
    errors := When(item.status !in {"TODO", "DONE"} && !blocked, item.id, "invalid status");
    if item.status == "DONE" {
      errors := errors
        + When(exists k | k in d.checklist.Deps(item.id) :: !ItemDone(d, k), item.id, "unfinished dependencies")
        + When(exists x | x in Externals(d, item.id) :: !External(d, x, "PRESENT"), item.id, "missing prerequisites");
    }
    if blocked {
      var problems := CheckNamed(d, item.id, Text.Split(item.status[|BLOCKED|..], ", "));
      errors := errors + problems;
    }
  }

  method CheckNamed(d: Document, id: string, named: seq<string>) returns (errors: seq<Problem>)
    ensures errors == [] <==> NamesMissing(d, id, named)
  {
    var names := set x | x in named;
    var missing := set x | x in Externals(d, id) && External(d, x, "MISSING");
    errors := When(exists x | x in names :: x !in Externals(d, id), id, "blocked input is not a prerequisite")
      + When(exists x | x in names :: !External(d, x, "MISSING"), id, "blocked input is not registered MISSING")
      + When(names != missing, id, "must name exactly its missing inputs");
    assert NamesMissing(d, id, named) <==> names == missing by {
      assert forall x :: x in names <==> x in named;
      assert forall x :: x in missing <==> x in Externals(d, id) && External(d, x, "MISSING");
    }
  }

  method CheckPackages(d: Document) returns (errors: seq<Problem>)
    ensures errors == [] <==> forall p | p in d.packages :: PackageOk(d, p)
  {
    errors := [];
    for n := 0 to |d.packages|
      invariant errors == [] <==> forall k | 0 <= k < n :: PackageOk(d, d.packages[k])
    {
      var problems := CheckPackage(d, d.packages[n]);
      errors := errors + problems;
    }
  }

  method CheckPackage(d: Document, p: Package) returns (errors: seq<Problem>)
    ensures errors == [] <==> PackageOk(d, p)
  {
    errors := When(p.status !in ACTIVE_PACKAGE + {"QUEUED", "DONE", "BLOCKED"}, p.id, "invalid status");
    var problems;
    if p.id == "PKG-10" {
      problems := CheckRemediationPackage(d, p.status);
    } else {
      problems := CheckOrdinaryPackage(d, p, Owned(d, p.id));
    }
    errors := errors + problems;
  }

  method CheckRemediationPackage(d: Document, status: string) returns (errors: seq<Problem>)
    ensures errors == [] <==> RemediationPackageOk(d, status)
  {
    var active := exists s | s in d.slices :: s.status == "ACTIVE";
    errors := When(status == "DONE" && !AllComplete(d.slices), "PKG-10", "contains unfinished slices")
      + When(AllComplete(d.slices) && status != "DONE", "PKG-10", "must be DONE")
      + When(active && status !in ACTIVE_PACKAGE, "PKG-10", "ACTIVE slices require active PKG-10");
  }

  method CheckOrdinaryPackage(d: Document, p: Package, owned: seq<Item>) returns (errors: seq<Problem>)
    ensures errors == [] <==> OrdinaryPackageOk(d, p.status, owned)
  {
    hide ItemRunnable, Checklist.BlockedChain;
    errors := When(p.status == "DONE" && exists i | i in owned :: i.status != "DONE",
                   p.id, "contains unfinished items");
    if p.status == "BLOCKED" {
      errors := errors
        + When(forall i | i in owned :: i.status == "DONE", p.id, "has no unfinished work")
        + When(exists i | i in owned :: ItemRunnable(d, i), p.id, "still has runnable work")
        + When(exists i | i in owned :: i.status != "DONE" && !d.checklist.BlockedChain(i.id, {}),
               p.id, "is not tied to a blocker");
    }
  }

  // ----- The controller -----

  /** `active` lists the active packages among the first `n`, in order. */
  ghost predicate ActiveRows(packages: seq<Package>, n: nat, active: seq<nat>)
    requires n <= |packages|
  {
    && (forall k | k in active :: k < n && packages[k].status in ACTIVE_PACKAGE)
    && (forall k: nat | k < n && packages[k].status in ACTIVE_PACKAGE :: k in active)
    && Distinct(active)
  }

  method CheckController(d: Document) returns (errors: seq<Problem>)
    ensures errors == [] <==> ControllerOk(d)
  {
    var active: seq<nat> := [];
    for n := 0 to |d.packages|
      invariant ActiveRows(d.packages, n, active)
    {
      if d.packages[n].status in ACTIVE_PACKAGE { active := active + [n]; }
    }
    ActiveCount(d, active);
    if |active| == 1 {
      errors := CheckActive(d, d.packages[active[0]]);
    } else if |active| == 0 {
      errors := CheckIdle(d);
    } else {
      errors := [Problem("", "exactly one package may be active")];
    }
  }

  lemma ActiveCount(d: Document, active: seq<nat>)
    requires ActiveRows(d.packages, |d.packages|, active)
    ensures NoActivePackage(d) <==> |active| == 0
    ensures forall n: nat | n < |d.packages| :: OneActivePackage(d, n) <==> active == [n]
  {
    if |active| > 0 { assert active[0] in active; }
    forall n: nat | n < |d.packages| ensures OneActivePackage(d, n) <==> active == [n] {
      if OneActivePackage(d, n) {
        assert n in active;
        DistinctByCount(active);
        assert ToSet(active) == {n};
        assert active == [active[0]] && active[0] in active;
      } else if active == [n] {
        assert forall k: nat | k < |d.packages| :: k in active <==> k == n;
        assert false;
      }
    }
  }

  method CheckActive(d: Document, active: Package) returns (errors: seq<Problem>)
    ensures errors == [] <==> ActiveControllerOk(d, active)
  {
    hide SliceCheckpointOk, ItemCheckpointOk, Owned;
    var owner := d.checkpoint.Some? && d.checkpoint.value.0 == active.id;
    errors :=
      When(exists p | p in d.packages && p.number < active.number :: p.status !in {"DONE", "BLOCKED"},
           "", "bypasses an earlier package")
      + When(exists p | p in d.packages && p.number > active.number :: p.status !in {"QUEUED", "BLOCKED"},
             "", "package after the active one")
      + When(d.controller != "ACTIVE", "", "controller must be ACTIVE")
      + When(d.controlPackage != active.id, "", "control package does not match")
      + When(!owner, "", "checkpoint does not belong to the active package");
    if owner {
      var checkpoint;
      if active.id == "PKG-10" {
        checkpoint := CheckSliceCheckpoint(d, d.checkpoint.value.1);
      } else {
        checkpoint := CheckItemCheckpoint(d, active, Owned(d, active.id), d.checkpoint.value.1);
      }
      errors := errors + checkpoint;
    }
  }

  method CheckSliceCheckpoint(d: Document, checkpoint: string) returns (errors: seq<Problem>)
    ensures errors == [] <==> SliceCheckpointOk(d, checkpoint)
  {
    hide InProgress;
    var known := checkpoint in ById(d.slices);
    errors := When(!known, checkpoint, "checkpoint is no slice")
      + When(known && !InProgress(ById(d.slices)[checkpoint], d.slices),
             checkpoint, "checkpoint is neither ACTIVE nor runnable")
      + When(forall s | s in d.slices :: !InProgress(s, d.slices), checkpoint, "no ACTIVE or runnable slice");
  }

  method CheckItemCheckpoint(d: Document, active: Package, owned: seq<Item>, id: string) returns (errors: seq<Problem>)
    ensures errors == [] <==> ItemCheckpointOk(d, active, owned, id)
  {
    hide ItemRunnable;
    var closing := active.status == "REVIEW" && owned != [] && forall i | i in owned :: i.status == "DONE";
    var checkpoint := d.checklist.Find(id);
    errors := When(checkpoint.None? || checkpoint.value.packageId != active.id,
                   id, "checkpoint is mapped to another package")
      + When(checkpoint.Some? && !closing && !ItemRunnable(d, checkpoint.value), id, "checkpoint is not runnable")
      + When(!closing && forall i | i in owned :: !ItemRunnable(d, i), id, "no runnable item");
  }

  method CheckIdle(d: Document) returns (errors: seq<Problem>)
    ensures errors == [] <==> if d.controller == "COMPLETE" then CompleteControllerOk(d) else PausedControllerOk(d)
  {
    if d.controller == "COMPLETE" {
      var complete := d.packages != [] && d.checklist.items != [] && AllComplete(d.slices)
        && (forall p | p in d.packages :: p.status == "DONE")
        && forall i | i in d.checklist.items :: i.status == "DONE";
      errors := When(!complete, "", "everything must be DONE")
        + When(d.controlPackage != "PKG-09", "", "must retain PKG-09")
        + When(d.checkpoint != Some(("PKG-09", "W4-04B")), "", "must retain PKG-09 / W4-04B")
        + When(complete && !d.deferredComplete, "", "deferred validation is incomplete");
    } else {
      errors := CheckPaused(d);
    }
  }

  method CheckPaused(d: Document) returns (errors: seq<Problem>)
    ensures errors == [] <==> PausedControllerOk(d)
  {
    hide ItemRunnable, Runnable, Frontier, PausedState, Checklist.BlockerIds;
    var pointed := FindPackage(d.packages, d.controlPackage);
    errors := When(!PausedState(d), "", "requires PAUSED or COMPLETE")
      + When(pointed.None? || pointed.value.status != "BLOCKED", "", "must point to a BLOCKED package");
    if pointed.Some? { errors := errors + When(!Frontier(d, pointed.value), "", "paused package bypasses another"); }
    var owner := d.checkpoint.Some? && pointed.Some? && d.checkpoint.value.0 == pointed.value.id;
    var checkpoint := if d.checkpoint.Some? then d.checklist.Find(d.checkpoint.value.1) else None;
    errors := errors
      + When(!owner || checkpoint.None? || checkpoint.value.packageId != pointed.value.id,
             "", "checkpoint must belong to the package")
      + When(!External(d, PausedFor(d), "MISSING"), "", "external id is not MISSING")
      + When(exists i | i in d.checklist.items :: ItemRunnable(d, i), "", "runnable work exists")
      + When(exists s | s in d.slices :: Runnable(s, d.slices), "", "runnable slices exist")
      + When(checkpoint.None? || PausedFor(d) !in d.checklist.BlockerIds(checkpoint.value.id, {}),
             "", "external id does not block the checkpoint");
  }
}
