/**
  scripts/validate_progress.py: a document with a paused controller that keeps every rule, so that
  the rules can be met.
 */
module DeliveryExample {
  import opened Wrappers
  import opened BlockedChains
  import opened Remediation
  import opened DependencyGraph
  import opened DeliveryControl
  import Text

  const ROWS: seq<Package> := [
    Package(1, "PKG-01", "BLOCKED"), Package(2, "PKG-02", "DONE"), Package(3, "PKG-03", "DONE"),
    Package(4, "PKG-04", "DONE"),
    Package(5, "PKG-05", "DONE"), Package(6, "PKG-06", "DONE"), Package(7, "PKG-07", "DONE"),
    Package(8, "PKG-08", "DONE"),
    Package(9, "PKG-09", "DONE"), Package(10, "PKG-10", "DONE")]

  const SLICE := Slice("S", [], "COMPLETE", "PASS — S-P", "PASS — S-M", "D PASS — S-D")
  const ITEM := Item("I", "PKG-01", "BLOCKED — EXT-A")
  const PHASES: map<string, string> := map["S" := "D"]

  /** A finished register, and one item that waits for a missing input, for which the controller is paused. */
  const PAUSED: Document :=
    Document(ROWS, [SLICE], Checklist([ITEM], map[]),
             map["I" := ["EXT-A"]], map[], map["EXT-A" := "MISSING"],
             "PAUSED — EXT-A", "PKG-01", Some(("PKG-01", "I")), false)

  lemma PausedDocumentIsAccepted()
    ensures Accepted(PAUSED, ["S"], PHASES) && Text.StartsWith(PAUSED.controller, "PAUSED — ")
  {
    RowsAreOk();
    ItemsAreOk();
    RegisterIsOk();
    PackagesAreOk();
    ControllerIsOk();
    hide PAUSED, ROWS, SLICE, ITEM, PHASES, PACKAGE_IDS, ItemOk, PackageOk, ControllerOk, RegisterOk, Text.StartsWith;
  }

  lemma RowsAreOk()
    ensures |PAUSED.packages| == 10
    ensures forall k | 0 <= k < 10 :: PAUSED.packages[k].number == k + 1 && PAUSED.packages[k].id == PACKAGE_IDS[k]
    ensures PAUSED.slices == [SLICE]
  {
  }

  lemma FoundItem()
    ensures PAUSED.checklist.Ids() == {"I"} && PAUSED.checklist.Find("I") == Some(ITEM)
    ensures PAUSED.checklist.IsBlocked("I") && ITEM.status[|BLOCKED|..] == "EXT-A"
    ensures Text.Split("EXT-A", ", ") == ["EXT-A"]
  {
    assert PAUSED.checklist.FindFrom("I", 0) == Some(ITEM);
    assert BLOCKED + "EXT-A" == ITEM.status;
    Text.SplitNone("EXT-A", ", ");
  }

  lemma ItemsAreOk()
    ensures |PAUSED.checklist.Ids()| == |PAUSED.checklist.items|
    ensures forall i | i in PAUSED.checklist.items :: ItemOk(PAUSED, i)
  {
    FoundItem();
    hide Text.Split;
    assert Externals(PAUSED, "I") == ["EXT-A"];
  }

  lemma RegisterIsOk()
    ensures RegisterOk(PAUSED.slices, ["S"], PHASES)
  {
    assert Ids([SLICE]) == ["S"];
    assert ById([SLICE])["S"] == SLICE;
    var g := GraphOf([SLICE]);
    assert g.known == {"S"} && g.Deps("S") == [];
    hide ById, GraphOf, Ids;
    assert g.Topological(["S"]);
    TopologicalMeansAcyclic(g, ["S"]);
    SliceIsOk();
    hide ReceiptsOk, Graph.HasCycle;
  }

  lemma SliceIsOk()
    ensures ReceiptsOk(SLICE, "D")
  {
    assert "PASS — " + "S" + "-P" == SLICE.planReview && "PASS — " + "S" + "-M" == SLICE.diffReview;
    assert "D" + " PASS — " + "S" + "-" + "D" == SLICE.checkpoint;
  }

  lemma PackagesAreOk()
    ensures forall p | p in PAUSED.packages :: PackageOk(PAUSED, p)
  {
    forall p | p in PAUSED.packages ensures PackageOk(PAUSED, p) { PackageIsOk(p); }
  }

  lemma OwnsItem(id: string)
    ensures Owned(PAUSED, id) == if id == "PKG-01" then [ITEM] else []
  {
    assert OwnedFrom([], id) == [] && [ITEM][1..] == [];
    assert OwnedFrom([ITEM], id) == if id == "PKG-01" then [ITEM] else [];
  }

  lemma PackageIsOk(p: Package)
    requires p in ROWS
    ensures PackageOk(PAUSED, p)
  {
    RowKinds(p);
    OwnsItem(p.id);
    BlockedPackageIsOk();
    hide ROWS, PAUSED, Owned, OrdinaryPackageOk, RemediationPackageOk;
  }

  lemma RowKinds(p: Package)
    requires p in ROWS
    ensures p.status == if p.id == "PKG-01" then "BLOCKED" else "DONE"
  {
  }

  lemma BlockedPackageIsOk()
    ensures OrdinaryPackageOk(PAUSED, "BLOCKED", [ITEM]) && OrdinaryPackageOk(PAUSED, "DONE", [])
    ensures RemediationPackageOk(PAUSED, "DONE")
  {
    FoundItem();
    assert ITEM.status[0] == 'B' && PAUSED.checklist.BlockedChain("I", {});
    assert PAUSED.slices == [SLICE] && SLICE.status == "COMPLETE" && ITEM.id == "I";
    hide PAUSED, ROWS, Checklist.BlockedChain, Text.Split, Checklist.Find;
  }

  lemma NothingActive()
    ensures NoActivePackage(PAUSED) && FindPackage(PAUSED.packages, "PKG-01") == Some(ROWS[0])
    ensures Frontier(PAUSED, ROWS[0]) && ROWS[0].status == "BLOCKED"
  {
    assert FindPackage(ROWS, "PKG-01") == Some(ROWS[0]);
  }

  lemma PausedFirst()
    ensures PAUSED.controller != "COMPLETE" && PausedFor(PAUSED) == "EXT-A" && PausedState(PAUSED)
    ensures Text.StartsWith(PAUSED.controller, "PAUSED — ")
  {
    assert "PAUSED — " + "EXT-A" == PAUSED.controller;
    assert "EXT-A"[4..] == "A" && Text.StartsWith("EXT-A", "EXT-");
  }

  lemma NothingRunnable()
    ensures forall i | i in PAUSED.checklist.items :: !ItemRunnable(PAUSED, i)
    ensures forall s | s in PAUSED.slices :: !Runnable(s, PAUSED.slices)
    ensures "EXT-A" in PAUSED.checklist.BlockerIds("I", {})
  {
    FoundItem();
    hide Text.Split;
  }

  lemma ControllerIsOk()
    ensures ControllerOk(PAUSED) && Text.StartsWith(PAUSED.controller, "PAUSED — ")
  {
    FoundItem();
    NothingActive();
    PausedFirst();
    NothingRunnable();
    assert External(PAUSED, "EXT-A", "MISSING") && PAUSED.controlPackage == "PKG-01"
        && PAUSED.checkpoint == Some(("PKG-01", "I"));
    hide PAUSED, ROWS, FindPackage, Checklist.BlockerIds, PausedFor, PausedState, Frontier, Checklist.Find,
        ItemRunnable, Runnable;
    hide NoActivePackage, External, CompleteControllerOk, OneActivePackage, ActiveControllerOk, Text.StartsWith;
    assert ITEM.packageId == "PKG-01";
    assert PausedControllerOk(PAUSED);
  }
}
