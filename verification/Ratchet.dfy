/**
  scripts/check_changed_coverage.py: how a changed coverage baseline is admitted against the
  baseline of the event base and the baseline of the commit it says it was refreshed from.
 */
module Ratchet {
  import opened Wrappers
  import opened Percentages
  import Text

  /** D41's tolerance: 3/10 of a point. */
  const TOLERANCE: nat := 3_000

  /** A percentage, and the counts behind it where the baseline carries them. */
  datatype Metric = Metric(percent: int, counts: Option<Counts>)

  datatype Scope = Scope(line: Metric, branch: Metric)

  datatype Scopes = Scopes(overall: Scope, backend: Scope, frontend: Scope)

  /** The refresh record: what it replaced, what it changed, why, and whether it reconciled the runtime. */
  datatype Refresh = Refresh(previousSha: string, changes: string, reason: string, reconciliation: bool,
      attestationSha: string)

  datatype Paths = Paths(backend: seq<string>, frontend: seq<string>)

  datatype Baseline = Baseline(
    version: int, parentSha: string, inventorySha: string, policySha: string, sourceSha: string,
    scopes: Scopes, paths: Paths, runtime: Option<string>, refresh: Option<Refresh>)

  /** What one run of the checker measures and reads from its repository. */
  datatype Evidence = Evidence(
    scopes: Scopes, inventorySha: string, policySha: string, sourceSha: string, paths: Paths,
    /** The verified runtime of the coverage producer, and that of the legacy attestation. */
    provenance: Option<string>, attested: Option<string>, attestationSha: string)

  /** A baseline recorded at an ancestor commit, with the digest and inventory change computed from it. */
  datatype Recorded = Recorded(sha: string, baseline: Baseline, digest: string, changes: string)

  datatype Mode = Verify | RefreshBaseline(reason: string) | Reconcile(reason: string)

  // ----- The floor check -----

  predicate MetricValid(m: Metric) {
    0 <= m.percent <= 1_000_000 && (m.counts.Some? ==> m.counts.value.Valid())
  }

  /** A measured metric has counts and their own percentage. */
  predicate MetricMeasured(m: Metric) {
    m.counts.Some? && m.counts.value.Valid() && m.percent == Percent(m.counts.value)
  }

  predicate MetricNotRegressed(actual: Metric, expected: Metric, tolerance: nat) {
    && MetricValid(expected)
    && (expected.counts.Some? ==>
          && actual.counts.Some? && actual.counts.value.Valid()
          && MeetsFloor(actual.counts.value, expected.counts.value, tolerance))
    && actual.percent >= expected.percent - tolerance
  }

  /** `_assert_not_regressed`. */
  predicate NotRegressed(actual: Scope, expected: Scope, tolerance: nat) {
    MetricNotRegressed(actual.line, expected.line, tolerance)
        && MetricNotRegressed(actual.branch, expected.branch, tolerance)
  }

  predicate AllNotRegressed(actual: Scopes, expected: Scopes, tolerance: nat) {
    && NotRegressed(actual.overall, expected.overall, tolerance)
    && NotRegressed(actual.backend, expected.backend, tolerance)
    && NotRegressed(actual.frontend, expected.frontend, tolerance)
  }

  // ----- Admission -----

  predicate Blank(s: string) {
    Text.Strip(s) == ""
  }

  /** The candidate asks for the one-time runtime reconciliation of a baseline without provenance. */
  predicate AsksReconciliation(trusted: Baseline, candidate: Baseline) {
    && trusted.version in {1, 2} && candidate.version == 3
    && candidate.refresh.Some? && candidate.refresh.value.reconciliation
  }

  predicate Migrates(trusted: Baseline, candidate: Baseline, mode: Mode) {
    mode.Reconcile? || AsksReconciliation(trusted, candidate)
  }

  function Producer(candidate: Baseline, ev: Evidence, mode: Mode): Option<string> {
    if mode.Reconcile? then ev.attested
    else if candidate.version == 3 then ev.provenance
    else None
  }

  predicate RuntimeTrusted(authority: Baseline, producer: Option<string>) {
    authority.version == 3 ==> producer.Some? && authority.runtime == producer
  }

  /** Nothing but metadata differs from the trusted baseline. */
  predicate MetadataOnly(trusted: Baseline, ev: Evidence, runtime: Option<string>) {
    && trusted.version == 3 && ev.sourceSha == trusted.sourceSha && ev.inventorySha == trusted.inventorySha
    && runtime == trusted.runtime && ev.paths == trusted.paths
  }

  /** An adopted metric restates the measured total and its own percentage. */
  predicate MetricAdoptable(adopted: Metric, measured: Metric) {
    MetricMeasured(adopted) && measured.counts.Some? && adopted.counts.value.total == measured.counts.value.total
  }

  predicate Adoptable(adopted: Scope, measured: Scope, prior: Scope) {
    && MetricAdoptable(adopted.line, measured.line) && MetricAdoptable(adopted.branch, measured.branch)
    && NotRegressed(adopted, prior, 0) && NotRegressed(measured, adopted, TOLERANCE)
  }

  predicate AllAdoptable(adopted: Scopes, measured: Scopes, prior: Scopes) {
    && Adoptable(adopted.overall, measured.overall, prior.overall)
    && Adoptable(adopted.backend, measured.backend, prior.backend)
    && Adoptable(adopted.frontend, measured.frontend, prior.frontend)
  }

  /** The candidate adopts ratios of its own: a refresh, on version 3, of changed sources. */
  predicate Adopts(trusted: Baseline, candidate: Baseline, ev: Evidence, mode: Mode) {
    mode.Verify? && trusted.version == 3 && !Migrates(trusted, candidate, mode) && ev.sourceSha != trusted.sourceSha
  }

  /** The reason recorded with a refresh. */
  function Reason(candidate: Baseline, mode: Mode): string {
    match mode
    case Verify => if candidate.refresh.Some? then candidate.refresh.value.reason else ""
    case RefreshBaseline(reason) => Text.Strip(reason)
    case Reconcile(reason) => Text.Strip(reason)
  }

  /** The runtime a snapshot records. */
  function SnapshotRuntime(trusted: Baseline, candidate: Baseline, ev: Evidence, mode: Mode): Option<string> {
    var producer := Producer(candidate, ev, mode);
    if Migrates(trusted, candidate, mode) then if producer.Some? then producer else ev.attested
    else if trusted.version == 3 then producer
    else None
  }

  /** The ratios a snapshot records: retained, adopted or measured. */
  function SnapshotScopes(trusted: Baseline, candidate: Baseline, ev: Evidence, mode: Mode): Scopes {
    if MetadataOnly(trusted, ev, SnapshotRuntime(trusted, candidate, ev, mode)) then trusted.scopes
    else if Adopts(trusted, candidate, ev, mode) then candidate.scopes
    else ev.scopes
  }

  /** The baseline the evidence supports. */
  function Snapshot(origin: Recorded, candidate: Baseline, ev: Evidence, mode: Mode): Baseline {
    var trusted := origin.baseline;
    var migrates := Migrates(trusted, candidate, mode);
    Baseline(
      if migrates || trusted.version == 3 then 3 else 2,
      origin.sha, ev.inventorySha, ev.policySha, ev.sourceSha,
      SnapshotScopes(trusted, candidate, ev, mode), ev.paths, SnapshotRuntime(trusted, candidate, ev, mode),
      Some(Refresh(origin.digest, origin.changes, Reason(candidate, mode), migrates,
                   if migrates then ev.attestationSha else "")))
  }

  /** What every mode requires before a snapshot is built. */
  predicate Gates(event: Baseline, trusted: Baseline, candidate: Baseline, ev: Evidence, mode: Mode) {
    var migrates := Migrates(trusted, candidate, mode);
    var producer := Producer(candidate, ev, mode);
    && event.version in {1, 2, 3} && candidate.version in {1, 2, 3}
    && ev.paths.backend != [] && ev.paths.frontend != []
    && (candidate.version == 3 && !mode.Reconcile? ==> producer.Some?)
    && (migrates ==> event.version != 3 && trusted.version in {1, 2})
    && RuntimeTrusted(event, producer) && RuntimeTrusted(trusted, producer)
    && (!migrates ==>
          && AllNotRegressed(ev.scopes, trusted.scopes, TOLERANCE)
          && AllNotRegressed(ev.scopes, event.scopes, TOLERANCE))
    && (migrates ==> ev.attested.Some? && (producer.Some? ==> producer == ev.attested))
  }

  /**
    The verification of a baseline in a pull request: unchanged from the event base, or a
    receipt reconstructed at the ancestor it was refreshed from.
   */
  predicate Accepts(event: Recorded, origin: Recorded, candidate: Baseline, ev: Evidence) {
    if candidate == event.baseline then
      && Gates(event.baseline, event.baseline, candidate, ev, Verify)
      && candidate.inventorySha == ev.inventorySha && candidate.policySha == ev.policySha
    else
      && candidate.parentSha == origin.sha && origin.baseline.version in {1, 2, 3}
      && Gates(event.baseline, origin.baseline, candidate, ev, Verify)
      && !Blank(Reason(candidate, Verify))
      && (Adopts(origin.baseline, candidate, ev, Verify) ==>
            AllAdoptable(candidate.scopes, ev.scopes, origin.baseline.scopes))
      && candidate == Snapshot(origin, candidate, ev, Verify)
      && (Migrates(origin.baseline, candidate, Verify) || AllNotRegressed(candidate.scopes, event.baseline.scopes, 0))
  }

  /** What `--refresh-baseline` demands before it writes its snapshot. */
  predicate MayRefresh(event: Recorded, workingTree: Baseline, ev: Evidence, reason: string) {
    var mode := RefreshBaseline(reason);
    && Gates(event.baseline, event.baseline, workingTree, ev, mode)
    && (|| MetadataOnly(event.baseline, ev, SnapshotRuntime(event.baseline, workingTree, ev, mode))
        || Migrates(event.baseline, workingTree, mode)
        || AllNotRegressed(ev.scopes, event.baseline.scopes, 0))
    && !Blank(reason)
  }

  // ----- The ratios a baseline holds -----

  datatype Which = LineOf(scope: Group) | BranchOf(scope: Group)
  datatype Group = Overall | Backend | Frontend

  function MetricOf(s: Scopes, w: Which): Metric {
    var scope := match w.scope case Overall => s.overall case Backend => s.backend case Frontend => s.frontend;
    if w.LineOf? then scope.line else scope.branch
  }

  lemma NotRegressedAt(actual: Scopes, expected: Scopes, tolerance: nat, w: Which)
    requires AllNotRegressed(actual, expected, tolerance)
    ensures MetricNotRegressed(MetricOf(actual, w), MetricOf(expected, w), tolerance)
  {
  }

  /** The baseline holds an exact ratio for the metric. */
  predicate Holds(b: Baseline, w: Which) {
    MetricOf(b.scopes, w).counts.Some? && MetricOf(b.scopes, w).counts.value.Valid()
  }

  function Floor(b: Baseline, w: Which): Counts
    requires Holds(b, w)
    ensures Floor(b, w).Valid()
  {
    MetricOf(b.scopes, w).counts.value
  }

  /** An accepted step that changes the baseline and reconciles the runtime. */
  predicate Migration(event: Recorded, origin: Recorded, candidate: Baseline) {
    candidate != event.baseline && Migrates(origin.baseline, candidate, Verify)
  }

  /** Version 3 is never left, and nothing after it is a migration. */
  lemma VersionThreeStays(event: Recorded, origin: Recorded, candidate: Baseline, ev: Evidence)
    requires Accepts(event, origin, candidate, ev) && event.baseline.version == 3
    ensures candidate.version == 3 && !Migration(event, origin, candidate)
  {
  }

  lemma MigrationReachesThree(event: Recorded, origin: Recorded, candidate: Baseline, ev: Evidence)
    requires Accepts(event, origin, candidate, ev) && Migration(event, origin, candidate)
    ensures candidate.version == 3 && event.baseline.version != 3
  {
  }

  /** An accepted step that is no migration keeps every exact ratio, or raises it. */
  lemma FloorsNeverFall(event: Recorded, origin: Recorded, candidate: Baseline, ev: Evidence, w: Which)
    requires Accepts(event, origin, candidate, ev) && !Migration(event, origin, candidate) && Holds(event.baseline, w)
    ensures Holds(candidate, w) && MeetsFloor(Floor(candidate, w), Floor(event.baseline, w), 0)
  {
    if candidate != event.baseline { NotRegressedAt(candidate.scopes, event.baseline.scopes, 0, w); }
  }

  /**
    The measurement behind an accepted step is within the tolerance of the floors it leaves behind,
    always, and of the floors it found, unless it reconciles the runtime.
   */
  lemma MeasurementNearFloors(event: Recorded, origin: Recorded, candidate: Baseline, ev: Evidence, w: Which)
    requires Accepts(event, origin, candidate, ev) && MetricMeasured(MetricOf(ev.scopes, w))
    ensures Holds(candidate, w) ==>
              MeetsFloor(MetricOf(ev.scopes, w).counts.value, Floor(candidate, w), TOLERANCE)
    ensures !Migration(event, origin, candidate) && Holds(event.baseline, w) ==>
              MeetsFloor(MetricOf(ev.scopes, w).counts.value, Floor(event.baseline, w), TOLERANCE)
  {
    if !Migration(event, origin, candidate) {
      NotRegressedAt(ev.scopes, event.baseline.scopes, TOLERANCE, w);
      if candidate != event.baseline {
        NotRegressedAt(ev.scopes, origin.baseline.scopes, TOLERANCE, w);
        if Adopts(origin.baseline, candidate, ev, Verify) {
          AdoptedAt(candidate.scopes, ev.scopes, origin.baseline.scopes, w);
        }
      }
    }
  }

  lemma AdoptedAt(adopted: Scopes, measured: Scopes, prior: Scopes, w: Which)
    requires AllAdoptable(adopted, measured, prior)
    ensures MetricNotRegressed(MetricOf(measured, w), MetricOf(adopted, w), TOLERANCE)
  {
  }

  // ----- Chains of baselines -----

  /** One accepted verification: the baseline recorded at an ancestor, and the evidence. */
  datatype Step = Step(event: Recorded, origin: Recorded, candidate: Baseline, ev: Evidence)

  /** Each step starts from the baseline the step before it admitted. */
  ghost predicate Chain(steps: seq<Step>) {
    && (forall i | 0 <= i < |steps| :: Accepts(steps[i].event, steps[i].origin, steps[i].candidate, steps[i].ev))
    && forall i | 0 < i < |steps| :: steps[i].event.baseline == steps[i - 1].candidate
  }

  predicate MigratesAt(s: Step) {
    Migration(s.event, s.origin, s.candidate)
  }

  /** The baseline before step `n`, which is also the one after step `n - 1`. */
  function BaselineAt(steps: seq<Step>, n: nat): Baseline
    requires n <= |steps| && steps != []
  {
    if n < |steps| then steps[n].event.baseline else steps[n - 1].candidate
  }

  lemma Linked(steps: seq<Step>, n: nat)
    requires Chain(steps) && n < |steps|
    ensures BaselineAt(steps, n) == steps[n].event.baseline && BaselineAt(steps, n + 1) == steps[n].candidate
  {
    if n + 1 < |steps| { assert steps[n + 1].event.baseline == steps[n + 1 - 1].candidate; }
  }

  lemma {:induction false} ThreeAlongChain(steps: seq<Step>, m: nat, n: nat)
    requires Chain(steps) && steps != [] && m <= n <= |steps| && BaselineAt(steps, m).version == 3
    ensures BaselineAt(steps, n).version == 3 && forall k | m <= k < n :: !MigratesAt(steps[k])
    decreases n - m
  {
    hide Accepts, Migration;
    if m < n {
      Linked(steps, m);
      VersionThreeStays(steps[m].event, steps[m].origin, steps[m].candidate, steps[m].ev);
      ThreeAlongChain(steps, m + 1, n);
    }
  }

  /** The runtime is reconciled at most once in any chain, and the version is 3 ever after. */
  lemma ReconciledAtMostOnce(steps: seq<Step>, i: nat, j: nat)
    requires Chain(steps) && i < j < |steps| && MigratesAt(steps[i])
    ensures !MigratesAt(steps[j]) && steps[j].candidate.version == 3
  {
    hide Accepts, Migration;
    MigrationReachesThree(steps[i].event, steps[i].origin, steps[i].candidate, steps[i].ev);
    Linked(steps, i);
    Linked(steps, j);
    ThreeAlongChain(steps, i + 1, j + 1);
  }

  /** Between reconciliations, no adopted ratio of any earlier baseline is ever lowered. */
  lemma {:induction false} FloorsRise(steps: seq<Step>, m: nat, n: nat, w: Which)
    requires Chain(steps) && steps != [] && m <= n <= |steps| && Holds(BaselineAt(steps, m), w)
    requires forall k | m <= k < n :: !MigratesAt(steps[k])
    ensures Holds(BaselineAt(steps, n), w)
    ensures MeetsFloor(Floor(BaselineAt(steps, n), w), Floor(BaselineAt(steps, m), w), 0)
    decreases n - m
  {
    if m < n {
      Linked(steps, m);
      FloorsNeverFall(steps[m].event, steps[m].origin, steps[m].candidate, steps[m].ev, w);
      FloorsRise(steps, m + 1, n, w);
      FloorsCompose(Floor(BaselineAt(steps, n), w), Floor(BaselineAt(steps, m + 1), w),
                    Floor(BaselineAt(steps, m), w), 0);
    }
  }

  /**
    The tolerance never accumulates: the measurement of a step is within 0.3 points of the floors
    of every baseline since the last reconciliation, the one the step leaves behind included.
   */
  lemma ToleranceNeverAccumulates(steps: seq<Step>, m: nat, j: nat, w: Which)
    requires Chain(steps) && j < |steps| && m <= j + 1 && Holds(BaselineAt(steps, m), w)
    requires forall k | m <= k <= j :: !MigratesAt(steps[k])
    requires MetricMeasured(MetricOf(steps[j].ev.scopes, w))
    ensures MeetsFloor(MetricOf(steps[j].ev.scopes, w).counts.value, Floor(BaselineAt(steps, m), w), TOLERANCE)
  {
    Linked(steps, j);
    FloorsRise(steps, m, j + 1, w);
    MeasurementNearFloors(steps[j].event, steps[j].origin, steps[j].candidate, steps[j].ev, w);
    FloorsCompose(MetricOf(steps[j].ev.scopes, w).counts.value, Floor(steps[j].candidate, w),
                  Floor(BaselineAt(steps, m), w), TOLERANCE);
  }

  /** From version 3 on, with no further condition: floors only rise, and measurements stay near them. */
  lemma NothingLowersVersionThree(steps: seq<Step>, m: nat, j: nat, w: Which)
    requires Chain(steps) && m <= j < |steps| && BaselineAt(steps, m).version == 3 && Holds(BaselineAt(steps, m), w)
    ensures Holds(BaselineAt(steps, j + 1), w)
    ensures MeetsFloor(Floor(BaselineAt(steps, j + 1), w), Floor(BaselineAt(steps, m), w), 0)
    ensures MetricMeasured(MetricOf(steps[j].ev.scopes, w)) ==>
              MeetsFloor(MetricOf(steps[j].ev.scopes, w).counts.value, Floor(BaselineAt(steps, m), w), TOLERANCE)
  {
    ThreeAlongChain(steps, m, j + 1);
    FloorsRise(steps, m, j + 1, w);
    if MetricMeasured(MetricOf(steps[j].ev.scopes, w)) { ToleranceNeverAccumulates(steps, m, j, w); }
  }

  /** Neither the event's baseline nor the one it was refreshed from records a runtime yet. */
  predicate MayReconcile(event: Recorded, origin: Recorded) {
    event.baseline.version in {1, 2} && origin.baseline.version in {1, 2}
  }

  ghost predicate FloorsKept(before: Baseline, after: Baseline) {
    forall w | Holds(before, w) :: Holds(after, w) && MeetsFloor(Floor(after, w), Floor(before, w), 0)
  }

  /** A reconciliation skips the floors: over any two unreconciled baselines one that covers nothing is accepted. */
  lemma ReconciliationMayLowerFloors(event: Recorded, origin: Recorded) returns (candidate: Baseline, ev: Evidence)
    requires MayReconcile(event, origin)
    ensures Accepts(event, origin, candidate, ev) && Migration(event, origin, candidate)
    ensures forall w :: Holds(candidate, w) && Ratio(Floor(candidate, w)) == 0.0
  {
    var none := Metric(0, Some(Counts(0, 1)));
    var low := Scope(none, none);
    var lows := Scopes(low, low, low);
    var paths := Paths(["app/main.py"], ["frontend/src/main.ts"]);
    ev := Evidence(lows, "inventory", "policy", "source", paths, Some("runtime"), Some("runtime"), "attestation");
    candidate := Baseline(3, origin.sha, "inventory", "policy", "source", lows, paths, Some("runtime"),
                          Some(Refresh(origin.digest, origin.changes, "why", true, "attestation")));
    assert Text.Strip("why") == "why";
    assert candidate == Snapshot(origin, candidate, ev, Verify);
  }

  /**
    The floors are safe exactly when no reconciliation is possible: with some positive floor to
    lose, every accepted step keeps every floor if and only if one of the two baselines already
    has version 3.
   */
  lemma FloorsSafeUnlessReconcilable(event: Recorded, origin: Recorded, w: Which)
    requires event.baseline.version in {1, 2, 3} && origin.baseline.version in {1, 2, 3}
    requires Holds(event.baseline, w) && Ratio(Floor(event.baseline, w)) > 0.0
    ensures (forall candidate, ev :: Accepts(event, origin, candidate, ev) ==> FloorsKept(event.baseline, candidate))
            <==> !MayReconcile(event, origin)
  {
    if MayReconcile(event, origin) {
      var candidate, ev := ReconciliationMayLowerFloors(event, origin);
      assert !MeetsFloor(Floor(candidate, w), Floor(event.baseline, w), 0);
      assert !FloorsKept(event.baseline, candidate);
    } else {
      forall candidate, ev | Accepts(event, origin, candidate, ev) ensures FloorsKept(event.baseline, candidate) {
        forall v | Holds(event.baseline, v)
          ensures Holds(candidate, v) && MeetsFloor(Floor(candidate, v), Floor(event.baseline, v), 0)
        {
          FloorsNeverFall(event, origin, candidate, ev, v);
        }
      }
    }
  }

  // ----- What the tool writes, the checker admits -----

  ghost predicate AllMeasured(s: Scopes) {
    forall w :: MetricMeasured(MetricOf(s, w))
  }

  lemma MetricReflexive(m: Metric, tolerance: nat)
    requires MetricMeasured(m) || MetricValid(m)
    ensures MetricNotRegressed(m, m, tolerance)
  {
    if MetricMeasured(m) { PercentInRange(m.counts.value); }
  }

  lemma ScopesReflexive(s: Scopes, tolerance: nat)
    requires forall w :: MetricMeasured(MetricOf(s, w)) || MetricValid(MetricOf(s, w))
    ensures AllNotRegressed(s, s, tolerance)
  {
    MetricReflexive(MetricOf(s, LineOf(Overall)), tolerance);
    MetricReflexive(MetricOf(s, BranchOf(Overall)), tolerance);
    MetricReflexive(MetricOf(s, LineOf(Backend)), tolerance);
    MetricReflexive(MetricOf(s, BranchOf(Backend)), tolerance);
    MetricReflexive(MetricOf(s, LineOf(Frontend)), tolerance);
    MetricReflexive(MetricOf(s, BranchOf(Frontend)), tolerance);
  }

  lemma MeasuredIsAdoptable(measured: Scopes, prior: Scopes)
    requires AllMeasured(measured) && AllNotRegressed(measured, prior, 0)
    ensures AllAdoptable(measured, measured, prior)
  {
    ScopesReflexive(measured, TOLERANCE);
    assert MetricMeasured(MetricOf(measured, LineOf(Overall))) && MetricMeasured(MetricOf(measured, BranchOf(Overall)));
    assert MetricMeasured(MetricOf(measured, LineOf(Backend))) && MetricMeasured(MetricOf(measured, BranchOf(Backend)));
    assert MetricMeasured(MetricOf(measured, LineOf(Frontend)))
        && MetricMeasured(MetricOf(measured, BranchOf(Frontend)));
  }

  /**
    A snapshot that `--refresh-baseline` writes, whatever baseline the working tree held, is
    accepted when the same evidence is verified against the same base.
   */
  lemma RefreshIsAdmitted(event: Recorded, workingTree: Baseline, ev: Evidence, reason: string)
    requires AllMeasured(ev.scopes) && MayRefresh(event, workingTree, ev, reason)
    ensures Accepts(event, event, Snapshot(event, workingTree, ev, RefreshBaseline(reason)), ev)
  {
    var b, mode := event.baseline, RefreshBaseline(reason);
    var s := Snapshot(event, workingTree, ev, mode);
    assert Migrates(b, workingTree, mode) == Migrates(b, s, Verify);
    assert SnapshotRuntime(b, workingTree, ev, mode) == SnapshotRuntime(b, s, ev, Verify);
    assert Text.Strip(Text.Strip(reason)) == Text.Strip(reason);
    if !Migrates(b, workingTree, mode) { SnapshotScopesKept(event, workingTree, ev, reason); }
    if Adopts(b, s, ev, Verify) { MeasuredIsAdoptable(ev.scopes, b.scopes); }
  }

  lemma SnapshotScopesKept(event: Recorded, workingTree: Baseline, ev: Evidence, reason: string)
    requires AllMeasured(ev.scopes) && MayRefresh(event, workingTree, ev, reason)
    requires !Migrates(event.baseline, workingTree, RefreshBaseline(reason))
    ensures var s := Snapshot(event, workingTree, ev, RefreshBaseline(reason));
            AllNotRegressed(s.scopes, event.baseline.scopes, 0)
  {
    var b := event.baseline;
    if MetadataOnly(b, ev, SnapshotRuntime(b, workingTree, ev, RefreshBaseline(reason))) {
      forall w ensures MetricValid(MetricOf(b.scopes, w)) { NotRegressedAt(ev.scopes, b.scopes, TOLERANCE, w); }
      ScopesReflexive(b.scopes, 0);
    }
  }

  // ----- What an accepted receipt is bound to -----

  /** A changed baseline records the very evidence it is verified with, and where it came from. */
  lemma ReceiptBindsEvidence(event: Recorded, origin: Recorded, candidate: Baseline, ev: Evidence)
    requires Accepts(event, origin, candidate, ev) && candidate != event.baseline
    ensures candidate.parentSha == origin.sha && candidate.inventorySha == ev.inventorySha
    ensures candidate.policySha == ev.policySha && candidate.sourceSha == ev.sourceSha && candidate.paths == ev.paths
    ensures candidate.refresh.Some? && Text.Strip(candidate.refresh.value.reason) != ""
    ensures candidate.refresh.value.previousSha == origin.digest && candidate.refresh.value.changes == origin.changes
    ensures candidate.version == 3 ==> ev.provenance.Some? && candidate.runtime == ev.provenance
    ensures Migration(event, origin, candidate) ==> ev.attested.Some? && ev.attested == ev.provenance
    ensures candidate.version == 3 <==> origin.baseline.version == 3 || Migration(event, origin, candidate)
  {
  }

  /**
    The ratios of a changed baseline: kept while only metadata changed, else as measured, or
    adopted with the same totals.
   */
  lemma RatiosComeFromEvidence(event: Recorded, origin: Recorded, candidate: Baseline, ev: Evidence, w: Which)
    requires Accepts(event, origin, candidate, ev) && candidate != event.baseline && AllMeasured(ev.scopes)
    ensures || candidate.scopes == ev.scopes
            || (&& candidate.scopes == origin.baseline.scopes && origin.baseline.version == 3
                && ev.sourceSha == origin.baseline.sourceSha && ev.inventorySha == origin.baseline.inventorySha
                && ev.paths == origin.baseline.paths && ev.provenance == origin.baseline.runtime)
            || (&& origin.baseline.version == 3 && ev.sourceSha != origin.baseline.sourceSha
                && MetricMeasured(MetricOf(candidate.scopes, w))
                && Floor(candidate, w).total == MetricOf(ev.scopes, w).counts.value.total)
  {
    assert MetricMeasured(MetricOf(ev.scopes, w));
    if Adopts(origin.baseline, candidate, ev, Verify) {
      AdoptableAt(candidate.scopes, ev.scopes, origin.baseline.scopes, w);
    }
  }

  lemma AdoptableAt(adopted: Scopes, measured: Scopes, prior: Scopes, w: Which)
    requires AllAdoptable(adopted, measured, prior)
    ensures MetricAdoptable(MetricOf(adopted, w), MetricOf(measured, w))
  {
  }

  /** From version 3 on the runtime never changes, and every step is measured on it. */
  lemma {:induction false} RuntimeStays(steps: seq<Step>, m: nat, j: nat)
    requires Chain(steps) && m <= j < |steps| && BaselineAt(steps, m).version == 3
    ensures BaselineAt(steps, j + 1).runtime == BaselineAt(steps, m).runtime
    ensures steps[j].ev.provenance.Some? && steps[j].ev.provenance == BaselineAt(steps, m).runtime
    decreases j - m
  {
    Linked(steps, m);
    RuntimeKept(steps[m]);
    ThreeAlongChain(steps, m, m + 1);
    if m < j { RuntimeStays(steps, m + 1, j); }
    hide Accepts;
  }

  lemma RuntimeKept(s: Step)
    requires Accepts(s.event, s.origin, s.candidate, s.ev) && s.event.baseline.version == 3
    ensures s.candidate.runtime == s.event.baseline.runtime == s.ev.provenance && s.ev.provenance.Some?
  {
  }

  /** The tolerance in points of a percentage: 0.3. */
  lemma TolerancePoints(measured: Counts, floor: Counts)
    requires measured.Valid() && floor.Valid()
    ensures MeetsFloor(measured, floor, TOLERANCE) <==> 100.0 * Ratio(measured) >= 100.0 * Ratio(floor) - 0.3
    ensures MeetsFloor(measured, floor, 0) <==> Ratio(measured) >= Ratio(floor)
  {
  }
}
