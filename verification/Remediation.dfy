/** scripts/validate_progress.py: the rules of the remediation slice register. */
module Remediation {
  import opened DependencyGraph
  import opened Orders

  datatype Slice = Slice(
    id: string, dependencies: seq<string>, status: string,
    planReview: string, diffReview: string, checkpoint: string)

  datatype Problem = Problem(slice: string, message: string)

  function Ids(slices: seq<Slice>): (r: seq<string>)
    ensures |r| == |slices| && forall k | 0 <= k < |r| :: r[k] == slices[k].id
  {
    seq(|slices|, k requires 0 <= k < |slices| => slices[k].id)
  }

  /** A dictionary comprehension over the register: a repeated id keeps its last row. */
  function ById(slices: seq<Slice>): (r: map<string, Slice>)
    ensures forall id :: id in r <==> id in Ids(slices)
    ensures forall id | id in r :: r[id] in slices && r[id].id == id
  {
    if slices == [] then map[]
    else
      var n := |slices| - 1;
      assert Ids(slices) == Ids(slices[..n]) + [slices[n].id];
      ById(slices[..n])[slices[n].id := slices[n]]
  }

  function GraphOf(slices: seq<Slice>): (g: Graph)
    ensures forall id :: id in g.known <==> id in Ids(slices)
    ensures forall id | id in g.known :: g.Deps(id) == ById(slices)[id].dependencies
  {
    var byId := ById(slices);
    Graph(byId.Keys, map id | id in byId :: byId[id].dependencies)
  }

  predicate HasStatus(slices: seq<Slice>, id: string, status: string) {
    id in ById(slices) && ById(slices)[id].status == status
  }

  // ----- The rules, one slice at a time -----

  predicate DependenciesOk(s: Slice, known: map<string, Slice>) {
    && |ToSet(s.dependencies)| == |s.dependencies|
    && forall d | d in s.dependencies :: d != s.id && d in known
  }

  predicate PlanPassed(s: Slice) {
    s.planReview == "PASS — " + s.id + "-P"
  }

  predicate DiffPassed(s: Slice) {
    s.diffReview == "PASS — " + s.id + "-M"
  }

  predicate CheckpointPassed(s: Slice, phase: string) {
    s.checkpoint == phase + " PASS — " + s.id + "-" + phase
  }

  predicate CheckpointPending(s: Slice, phase: string) {
    s.checkpoint == phase + " PENDING"
  }

  predicate ReceiptsReadable(s: Slice, phase: string) {
    && s.status in {"QUEUED", "ACTIVE", "COMPLETE"}
    && (s.planReview == "PENDING" || PlanPassed(s)) && (s.diffReview == "PENDING" || DiffPassed(s))
    && (CheckpointPending(s, phase) || CheckpointPassed(s, phase))
  }

  predicate ReceiptsFitStatus(s: Slice, phase: string) {
    && (s.status == "QUEUED" ==> s.diffReview == "PENDING" && CheckpointPending(s, phase))
    && (s.status == "ACTIVE" ==> PlanPassed(s))
    && (CheckpointPassed(s, phase) ==> DiffPassed(s))
    && (s.status == "COMPLETE" ==> PlanPassed(s) && DiffPassed(s) && CheckpointPassed(s, phase))
  }

  /** The review receipts fit the status; `phase` is the slice's domain checkpoint. */
  predicate ReceiptsOk(s: Slice, phase: string) {
    ReceiptsReadable(s, phase) && ReceiptsFitStatus(s, phase)
  }

  predicate PredecessorsComplete(s: Slice, slices: seq<Slice>) {
    s.status in {"ACTIVE", "COMPLETE"} ==> forall d | d in s.dependencies :: HasStatus(slices, d, "COMPLETE")
  }

  function Phase(phases: map<string, string>, id: string): string {
    if id in phases then phases[id] else ""
  }

  /** What an accepted slice register satisfies; `canonical` lists its ids, `phases` their checkpoints. */
  ghost predicate RegisterOk(slices: seq<Slice>, canonical: seq<string>, phases: map<string, string>) {
    && Ids(slices) == canonical && Distinct(Ids(slices))
    && (forall s | s in slices :: DependenciesOk(s, ById(slices)))
    && !GraphOf(slices).HasCycle()
    && (forall s | s in slices :: ReceiptsOk(s, Phase(phases, s.id)))
    && (forall s | s in slices :: PredecessorsComplete(s, slices))
  }

  /** The errors `validate_text` appends for the remediation register. */
  method CheckRegister(slices: seq<Slice>, canonical: seq<string>, phases: map<string, string>)
    returns (errors: seq<Problem>)
    ensures errors == [] <==> RegisterOk(slices, canonical, phases)
  {
    errors := [];
    if Ids(slices) != canonical { errors := errors + [Problem("", "identity/dependencies changed")]; }
    DistinctByCount(Ids(slices));
    if |ToSet(Ids(slices))| != |Ids(slices)| { errors := errors + [Problem("", "ids must be unique")]; }
    var dependencyErrors := CheckDependencies(slices);
    var search := new CycleSearch(GraphOf(slices));
    search.VisitAll(Ids(slices));
    var receiptErrors := CheckReceipts(slices, phases);
    var orderErrors := CheckPredecessors(slices);
    errors := errors + dependencyErrors + CycleProblems(search.errors) + receiptErrors + orderErrors;
  }

  function CycleProblems(ids: seq<string>): (r: seq<Problem>)
    ensures |r| == |ids|
  {
    seq(|ids|, k requires 0 <= k < |ids| => Problem(ids[k], "dependency graph contains a cycle"))
  }

  /** One error when `broken`, none otherwise. */
  function When(broken: bool, slice: string, message: string): (r: seq<Problem>)
    ensures r == [] <==> !broken
  {
    if broken then [Problem(slice, message)] else []
  }

  method CheckDependencies(slices: seq<Slice>) returns (errors: seq<Problem>)
    ensures errors == [] <==> forall s | s in slices :: DependenciesOk(s, ById(slices))
  {
    errors := [];
    for n := 0 to |slices|
      invariant errors == [] <==> forall k | 0 <= k < n :: DependenciesOk(slices[k], ById(slices))
    {
      var problems := CheckSliceDependencies(slices[n], ById(slices));
      errors := errors + problems;
    }
  }

  method CheckSliceDependencies(s: Slice, byId: map<string, Slice>) returns (errors: seq<Problem>)
    ensures errors == [] <==> DependenciesOk(s, byId)
  {
    var repeats := |ToSet(s.dependencies)| != |s.dependencies|;
    errors := When(repeats, s.id, "repeats a dependency");
    for k := 0 to |s.dependencies|
      invariant errors == [] <==>
        !repeats && forall j | 0 <= j < k :: s.dependencies[j] != s.id && s.dependencies[j] in byId
    {
      if s.dependencies[k] == s.id {
        errors := errors + [Problem(s.id, "depends on itself")];
      } else if s.dependencies[k] !in byId {
        errors := errors + [Problem(s.id, "dependency is unknown")];
      }
    }
    assert forall j | 0 <= j < |s.dependencies| :: s.dependencies[j] in s.dependencies;
  }

  method CheckReceipts(slices: seq<Slice>, phases: map<string, string>) returns (errors: seq<Problem>)
    ensures errors == [] <==> forall s | s in slices :: ReceiptsOk(s, Phase(phases, s.id))
  {
    errors := [];
    for n := 0 to |slices|
      invariant errors == [] <==> forall k | 0 <= k < n :: ReceiptsOk(slices[k], Phase(phases, slices[k].id))
    {
      var problems := CheckSliceReceipts(slices[n], Phase(phases, slices[n].id));
      errors := errors + problems;
    }
  }

  method CheckSliceReceipts(s: Slice, phase: string) returns (errors: seq<Problem>)
    ensures errors == [] <==> ReceiptsOk(s, phase)
  {
    hide ReceiptsReadable, ReceiptsFitStatus;
    var readable := CheckReadable(s, phase);
    var fit := CheckFit(s, phase);
    errors := readable + fit;
  }

  method CheckReadable(s: Slice, phase: string) returns (errors: seq<Problem>)
    ensures errors == [] <==> ReceiptsReadable(s, phase)
  {
    hide PlanPassed, DiffPassed, CheckpointPending, CheckpointPassed;
    errors := When(s.status !in {"QUEUED", "ACTIVE", "COMPLETE"}, s.id, "invalid state")
      + When(s.planReview != "PENDING" && !PlanPassed(s), s.id, "invalid plan-review receipt")
      + When(s.diffReview != "PENDING" && !DiffPassed(s), s.id, "invalid diff-review receipt")
      + When(!CheckpointPending(s, phase) && !CheckpointPassed(s, phase), s.id, "invalid domain-checkpoint receipt");
  }

  method CheckFit(s: Slice, phase: string) returns (errors: seq<Problem>)
    ensures errors == [] <==> ReceiptsFitStatus(s, phase)
  {
    hide PlanPassed, DiffPassed, CheckpointPending, CheckpointPassed;
    var pass := CheckpointPassed(s, phase);
    errors := When(s.status == "QUEUED" && (s.diffReview != "PENDING" || !CheckpointPending(s, phase)), s.id,
                   "QUEUED slice must keep receipts pending")
      + When(s.status == "ACTIVE" && !PlanPassed(s), s.id, "ACTIVE slice requires plan review")
      + When(pass && !DiffPassed(s), s.id, "checkpoint cannot pass before diff review")
      + When(s.status == "COMPLETE" && !(PlanPassed(s) && DiffPassed(s) && pass), s.id,
             "COMPLETE slice requires every receipt");
  }

  /** The first `stage` of plan review, diff review and checkpoint have passed; the others are pending. */
  predicate AtStage(s: Slice, phase: string, stage: nat) {
    && s.planReview == (if stage >= 1 then "PASS — " + s.id + "-P" else "PENDING")
    && s.diffReview == (if stage >= 2 then "PASS — " + s.id + "-M" else "PENDING")
    && s.checkpoint == phase + (if stage >= 3 then " PASS — " + s.id + "-" + phase else " PENDING")
  }

  /** The stages a status allows. */
  predicate StageFits(status: string, stage: nat) {
    match status
    case "QUEUED" => stage <= 1
    case "ACTIVE" => 1 <= stage <= 3
    case "COMPLETE" => stage == 3
    case _ => false
  }

  /**
    Receipts are earned in order. A slice's receipts are accepted exactly when plan review, diff
    review and domain checkpoint have passed up to some stage and no further, and its status
    allows that stage; that stage is the only one.
   */
  lemma ReceiptsAreStages(s: Slice, phase: string)
    ensures ReceiptsOk(s, phase)
       <==> exists stage: nat :: stage <= 3 && AtStage(s, phase, stage) && StageFits(s.status, stage)
    ensures forall i: nat, j: nat | i <= 3 && j <= 3 && AtStage(s, phase, i) && AtStage(s, phase, j) :: i == j
  {
    PendingIsNotPassed(s, phase);
    forall stage: nat | stage <= 3 ensures AtStage(s, phase, stage) <==> PassedUpTo(s, phase, stage) {
      StageIsPassed(s, phase, stage);
    }
    hide AtStage, PlanPassed, DiffPassed, CheckpointPassed, CheckpointPending;
    if ReceiptsOk(s, phase) {
      var stage: nat :=
        if CheckpointPassed(s, phase) then 3 else if DiffPassed(s) then 2 else if PlanPassed(s) then 1 else 0;
      assert PassedUpTo(s, phase, stage) && StageFits(s.status, stage);
    }
  }

  predicate PassedUpTo(s: Slice, phase: string, stage: nat) {
    && (if stage >= 1 then PlanPassed(s) else s.planReview == "PENDING")
    && (if stage >= 2 then DiffPassed(s) else s.diffReview == "PENDING")
    && (if stage >= 3 then CheckpointPassed(s, phase) else CheckpointPending(s, phase))
  }

  lemma StageIsPassed(s: Slice, phase: string, stage: nat)
    ensures AtStage(s, phase, stage) <==> PassedUpTo(s, phase, stage)
  {
    assert phase + (" PASS — " + s.id + "-" + phase) == phase + " PASS — " + s.id + "-" + phase;
  }

  lemma PendingIsNotPassed(s: Slice, phase: string)
    ensures s.planReview == "PENDING" ==> !PlanPassed(s)
    ensures s.diffReview == "PENDING" ==> !DiffPassed(s)
    ensures CheckpointPending(s, phase) ==> !CheckpointPassed(s, phase)
  {
    assert "PENDING"[1] == 'E' && ("PASS — " + s.id + "-P")[1] == 'A' && ("PASS — " + s.id + "-M")[1] == 'A';
    assert (phase + " PENDING")[|phase| + 2] == 'E';
    assert (phase + (" PASS — " + s.id + "-" + phase))[|phase| + 2] == 'A';
    assert phase + " PASS — " + s.id + "-" + phase == phase + (" PASS — " + s.id + "-" + phase);
  }

  method CheckPredecessors(slices: seq<Slice>) returns (errors: seq<Problem>)
    ensures errors == [] <==> forall s | s in slices :: PredecessorsComplete(s, slices)
  {
    errors := [];
    for n := 0 to |slices|
      invariant errors == [] <==> forall k | 0 <= k < n :: PredecessorsComplete(slices[k], slices)
    {
      if !PredecessorsComplete(slices[n], slices) {
        errors := errors + [Problem(slices[n].id, "unfinished dependencies")];
      }
    }
  }

  // ----- What the rules imply together -----

  /** `remediation_runnable`. */
  predicate Runnable(s: Slice, slices: seq<Slice>) {
    s.status == "QUEUED" && forall d | d in s.dependencies :: HasStatus(slices, d, "COMPLETE")
  }

  lemma {:induction false} UniqueRow(slices: seq<Slice>, s: Slice)
    requires Distinct(Ids(slices)) && s in slices
    ensures s.id in ById(slices) && ById(slices)[s.id] == s
  {
    var n := |slices| - 1;
    assert Ids(slices)[..n] == Ids(slices[..n]);
    if s != slices[n] {
      assert s in slices[..n];
      UniqueRow(slices[..n], s);
      var k :| 0 <= k < n && slices[k] == s;
      assert Ids(slices)[k] != Ids(slices)[n];
    } else {
      assert Ids(slices)[n] == s.id;
    }
  }

  /**
    What it is for a slice to run, said of the rows: it is QUEUED, and each dependency is the id of
    a COMPLETE row.
   */
  lemma RunnableMeans(slices: seq<Slice>, s: Slice)
    requires Distinct(Ids(slices))
    ensures Runnable(s, slices)
       <==> && s.status == "QUEUED"
            && forall d | d in s.dependencies :: exists t :: t in slices && t.id == d && t.status == "COMPLETE"
  {
    forall d
      ensures HasStatus(slices, d, "COMPLETE") <==> exists t :: t in slices && t.id == d && t.status == "COMPLETE"
    {
      if t :| t in slices && t.id == d && t.status == "COMPLETE" { UniqueRow(slices, t); }
    }
    hide HasStatus;
  }

  /** Everything an ACTIVE or COMPLETE slice depends on, at any distance, is COMPLETE. */
  lemma {:induction false} TransitiveDependenciesComplete(
      slices: seq<Slice>, canonical: seq<string>, phases: map<string, string>, p: seq<string>)
    requires RegisterOk(slices, canonical, phases) && GraphOf(slices).Path(p) && |p| > 1
    requires ById(slices)[p[0]].status in {"ACTIVE", "COMPLETE"}
    ensures HasStatus(slices, p[|p| - 1], "COMPLETE")
  {
    var g := GraphOf(slices);
    assert g.Edge(p[0], p[0 + 1]);
    assert PredecessorsComplete(ById(slices)[p[0]], slices);
    assert HasStatus(slices, p[1], "COMPLETE");
    if |p| > 2 {
      forall i | 0 <= i < |p[1..]| - 1 ensures g.Edge(p[1..][i], p[1..][i + 1]) {
        assert g.Edge(p[i + 1], p[i + 1 + 1]);
      }
      TransitiveDependenciesComplete(slices, canonical, phases, p[1..]);
    }
  }

  function Queued(slices: seq<Slice>): (r: set<string>)
    ensures forall id :: id in r <==> HasStatus(slices, id, "QUEUED")
  {
    set id | id in ById(slices) && HasStatus(slices, id, "QUEUED")
  }

  /** A queued slice that is not runnable waits for another unfinished slice. */
  lemma QueuedWaits(slices: seq<Slice>, id: string)
    requires HasStatus(slices, id, "QUEUED") && DependenciesOk(ById(slices)[id], ById(slices))
    requires forall s | s in slices :: s.status in {"QUEUED", "COMPLETE"}
    requires !Runnable(ById(slices)[id], slices)
    ensures LeadsInto(GraphOf(slices), Queued(slices), id)
  {
    var d :| d in ById(slices)[id].dependencies && !HasStatus(slices, d, "COMPLETE");
    assert ById(slices)[d] in slices;
    assert d in Queued(slices) && GraphOf(slices).Edge(id, d);
  }

  lemma StatusIsKnown(s: Slice, phase: string)
    requires ReceiptsOk(s, phase)
    ensures s.status in {"QUEUED", "ACTIVE", "COMPLETE"}
  {
  }

  /** The register never deadlocks: with nothing ACTIVE and nothing runnable, nothing is left. */
  lemma NothingRunnableMeansComplete(slices: seq<Slice>, canonical: seq<string>, phases: map<string, string>, s: Slice)
    requires RegisterOk(slices, canonical, phases) && s in slices
    requires forall t | t in slices :: t.status != "ACTIVE" && !Runnable(t, slices)
    ensures s.status == "COMPLETE"
  {
    hide ReceiptsOk, PredecessorsComplete, DependenciesOk, Runnable, ById, GraphOf, Ids, LeadsInto, Graph.HasCycle;
    forall t | t in slices ensures t.status in {"QUEUED", "COMPLETE"} {
      StatusIsKnown(t, Phase(phases, t.id));
    }
    if s.status != "COMPLETE" {
      UniqueRow(slices, s);
      assert s.id in Queued(slices);
      forall id | id in Queued(slices) ensures LeadsInto(GraphOf(slices), Queued(slices), id) {
        QueuedWaits(slices, id);
      }
      ClosedSetHasCycle(GraphOf(slices), Queued(slices));
    }
  }
}
