/**
  scripts/release_contract.py and scripts/recovery_authority.py: compatibility receipts, their
  acceptance, and the recovery authority issued from an accepted receipt.
 */
module Compatibility {
  import opened Wrappers
  import ReleaseState
  import Text

  /** An instant or a duration, in microseconds. */
  type Time = int

  const MAX_AGE: Time := 30 * 60 * 1_000_000
  const FUTURE_SKEW: Time := 0

  datatype Identities = Identities(
    targetReleaseId: string, targetRevision: string, targetImage: string,
    previousReleaseId: string, previousRevision: string, previousImage: string, forwardRevision: string)

  /** A probe's output: the fields the receipt is checked against, and whether its own checks passed. */
  datatype Output = Output(releaseRevision: string, checkedAt: Time, forwardRevision: string, passed: bool)

  datatype Probe = Probe(output: Output, outputSha: string)
  datatype Probes = Probes(readiness: Probe, reportSchema: Probe)

  datatype Body = Body(
    schemaVersion: int, evidenceType: string, outcome: string,
    targetReleaseId: string, targetRevision: string, targetImage: string,
    previousReleaseId: Option<string>, previousRevision: Option<string>, previousImage: Option<string>,
    forwardRevision: string, probes: Option<Probes>, generatedAt: Time, keyId: string)

  datatype Receipt = Receipt(body: Body, signature: string)

  /** What an acceptance signature covers. */
  datatype Acceptance = Acceptance(
    keyId: string, receiptSha: string, targetImage: string, targetReleaseId: string, targetRevision: string)

  datatype Authority = Authority(scope: string, identities: Identities, previousAlembic: string,
                                 acceptedSha: Option<string>, issuedAt: Time, expiresAt: Option<Time>, keyId: string)

  /** SHA-256 and HMAC-SHA-256 over canonical JSON, uninterpreted. */
  datatype Crypto = Crypto(
    digestOutput: Output -> string, digestReceipt: Receipt -> string,
    macBody: (string, Body) -> string, macAcceptance: (string, Acceptance) -> string)

  /** The formats of identifiers, images and secrets, uninterpreted. */
  datatype Formats = Formats(
    releaseId: string -> bool, revision: string -> bool, image: string -> bool, keyId: string -> bool,
    secret: string -> bool, identifier: string -> bool)

  ghost predicate ProducesDigests(c: Crypto) {
    && (forall o: Output :: Text.IsSha256(c.digestOutput(o)))
    && (forall r: Receipt :: Text.IsSha256(c.digestReceipt(r)))
    && (forall k: string, b: Body :: Text.IsSha256(c.macBody(k, b)))
    && (forall k: string, a: Acceptance :: Text.IsSha256(c.macAcceptance(k, a)))
  }

  function OrNone(s: string): Option<string> {
    if s == "" then None else Some(s)
  }

  // ----- Validation -----

  predicate ProbeOk(p: Probe, ids: Identities, generatedAt: Time, c: Crypto) {
    && Text.IsSha256(p.outputSha) && p.outputSha == c.digestOutput(p.output)
    && p.output.releaseRevision == ids.previousRevision
    && p.output.checkedAt <= generatedAt + FUTURE_SKEW && generatedAt - p.output.checkedAt <= MAX_AGE
    && p.output.forwardRevision == ids.forwardRevision && p.output.passed
  }

  /** The fields that do not depend on when the receipt is looked at. */
  predicate ClaimsMatch(b: Body, ids: Identities, keyId: string) {
    && b.schemaVersion == 3 && b.evidenceType == "previous_image_forward_schema_compatibility" && b.outcome == "passed"
    && b.targetReleaseId == ids.targetReleaseId && b.targetRevision == ids.targetRevision
        && b.targetImage == ids.targetImage
    && b.previousReleaseId == OrNone(ids.previousReleaseId) && b.previousRevision == OrNone(ids.previousRevision)
    && b.previousImage == OrNone(ids.previousImage) && b.forwardRevision == ids.forwardRevision && b.keyId == keyId
  }

  predicate FormatsOk(ids: Identities, secret: string, keyId: string, f: Formats) {
    && f.releaseId(ids.targetReleaseId) && f.revision(ids.targetRevision) && f.image(ids.targetImage)
    && Text.Strip(ids.forwardRevision) != "" && f.keyId(keyId) && f.secret(secret)
  }

  predicate PredecessorOk(b: Body, ids: Identities, f: Formats, c: Crypto) {
    if ids.previousReleaseId != "" then
      && f.releaseId(ids.previousReleaseId) && f.revision(ids.previousRevision) && f.image(ids.previousImage)
      && b.probes.Some? && ProbeOk(b.probes.value.readiness, ids, b.generatedAt, c)
      && ProbeOk(b.probes.value.reportSchema, ids, b.generatedAt, c)
    else
      ids.previousRevision == "" && ids.previousImage == "" && b.probes.None?
  }

  function AcceptanceOf(sha: string, ids: Identities, keyId: string): Acceptance {
    Acceptance(keyId, sha, ids.targetImage, ids.targetReleaseId, ids.targetRevision)
  }

  /**
    `validate_compatibility_evidence`: whether it returns, with an accepted digest and signature
    that may be empty.
   */
  predicate Validates(r: Receipt, ids: Identities, secret: string, keyId: string, now: Time,
                      acceptedSha: string, acceptedMac: string, f: Formats, c: Crypto) {
    && ClaimsMatch(r.body, ids, keyId) && FormatsOk(ids, secret, keyId, f)
    && r.body.generatedAt <= now + FUTURE_SKEW
    && (if acceptedSha != "" then
          && Text.IsSha256(acceptedSha) && c.digestReceipt(r) == acceptedSha
          && Text.IsSha256(acceptedMac)
          && acceptedMac == c.macAcceptance(secret, AcceptanceOf(c.digestReceipt(r), ids, keyId))
        else
          acceptedMac == "" && now - r.body.generatedAt <= MAX_AGE)
    && Text.IsSha256(r.signature) && r.signature == c.macBody(secret, r.body)
    && PredecessorOk(r.body, ids, f, c)
  }

  // ----- Building a receipt -----

  function ProbeFor(o: Output, c: Crypto): Probe {
    Probe(o, c.digestOutput(o))
  }

  function BodyOf(ids: Identities, probes: Option<Probes>, generatedAt: Time, keyId: string): Body {
    Body(3, "previous_image_forward_schema_compatibility", "passed",
         ids.targetReleaseId, ids.targetRevision, ids.targetImage,
         OrNone(ids.previousReleaseId), OrNone(ids.previousRevision), OrNone(ids.previousImage),
         ids.forwardRevision, probes, generatedAt, keyId)
  }

  /** `build_compatibility_receipt`. */
  function Build(ids: Identities, readiness: Option<Output>, reportSchema: Option<Output>, generatedAt: Time,
                 keyId: string, secret: string, f: Formats, c: Crypto): Result<Receipt> {
    if ids.previousReleaseId != "" && (readiness.None? || reportSchema.None?) then
      Err("Previous-image compatibility requires both probe outputs")
    else if ids.previousReleaseId == "" && (readiness.Some? || reportSchema.Some?) then
      Err("First-release compatibility must not invent predecessor probes")
    else
      var probes :=
        if ids.previousReleaseId == "" then None
        else Some(Probes(ProbeFor(readiness.value, c), ProbeFor(reportSchema.value, c)));
      var body := BodyOf(ids, probes, generatedAt, keyId);
      var r := Receipt(body, c.macBody(secret, body));
      if Validates(r, ids, secret, keyId, generatedAt, "", "", f, c) then Ok(r)
      else Err("Compatibility receipt is invalid")
  }

  /**
    A built receipt is accepted, unanchored, exactly in the half hour from its generation on,
    both ends included.
   */
  lemma FreshForHalfAnHour(ids: Identities, readiness: Option<Output>, reportSchema: Option<Output>, generatedAt: Time,
                           keyId: string, secret: string, f: Formats, c: Crypto, now: Time)
    requires Build(ids, readiness, reportSchema, generatedAt, keyId, secret, f, c).Ok?
    ensures var r := Build(ids, readiness, reportSchema, generatedAt, keyId, secret, f, c).value;
            Validates(r, ids, secret, keyId, now, "", "", f, c) <==> generatedAt <= now <= generatedAt + 1_800_000_000
  {
  }

  /** What `release_contract.py compatibility-validate` prints: the accepted digest and its signature. */
  function AcceptedDigest(r: Receipt, c: Crypto): string {
    c.digestReceipt(r)
  }

  function AcceptedSignature(r: Receipt, ids: Identities, keyId: string, secret: string, c: Crypto): string {
    c.macAcceptance(secret, AcceptanceOf(c.digestReceipt(r), ids, keyId))
  }

  /** Once accepted, a built receipt is accepted at every later time, however old it grows. */
  lemma AcceptedForEver(ids: Identities, readiness: Option<Output>, reportSchema: Option<Output>, generatedAt: Time,
                        keyId: string, secret: string, f: Formats, c: Crypto, now: Time)
    requires ProducesDigests(c) && Build(ids, readiness, reportSchema, generatedAt, keyId, secret, f, c).Ok?
    ensures var r := Build(ids, readiness, reportSchema, generatedAt, keyId, secret, f, c).value;
            Validates(r, ids, secret, keyId, now,
                      AcceptedDigest(r, c), AcceptedSignature(r, ids, keyId, secret, c), f, c)
            <==> generatedAt <= now
  {
    var r := Build(ids, readiness, reportSchema, generatedAt, keyId, secret, f, c).value;
    assert Text.IsSha256(c.digestReceipt(r)) && Text.IsSha256(AcceptedSignature(r, ids, keyId, secret, c));
  }

  // ----- Recovery -----

  /** The outcome recorded with the compatibility stage. */
  function RecordedOutcome(r: Receipt, ids: Identities, keyId: string, secret: string, c: Crypto): string {
    Text.Join(["passed", AcceptedDigest(r, c), AcceptedSignature(r, ids, keyId, secret, c)], ":")
  }

  predicate SameIdentities(s: ReleaseState.State, ids: Identities) {
    && s.identity.releaseId == ids.targetReleaseId && s.identity.revision == ids.targetRevision
    && s.identity.backendImage == ids.targetImage && s.identity.previousReleaseId == Some(ids.previousReleaseId)
  }

  /** `validate_authority` on a recovery authority it has just signed. */
  predicate AuthorityOk(a: Authority, ids: Identities, secret: string, f: Formats) {
    && |secret| >= 32
    && ids.previousReleaseId != "" && ids.previousRevision != "" && ids.previousImage != "" && a.previousAlembic != ""
    && f.identifier(ids.forwardRevision) && ids.targetImage != ids.previousImage
        && ids.targetRevision != ids.previousRevision
    && a.expiresAt.None? && a.acceptedSha.Some? && Text.IsSha256(a.acceptedSha.value)
  }

  /** `build_overlay` with the recovery scope: the authority it issues. */
  function Recover(ids: Identities, declaredPredecessor: string, previousAlembic: string, state: ReleaseState.State,
                   evidence: Receipt, now: Time, keyId: string, secret: string,
                   f: Formats, c: Crypto): Result<Authority> {
    var outcomes := ReleaseState.Outcomes(state.events, "compatibility");
    if !f.identifier(previousAlembic) then Err("Previous image lacks the required recovery capability")
    else if declaredPredecessor != ids.previousReleaseId then Err("Previous release is not the declared predecessor")
    else if !SameIdentities(state, ids) then Err("Recovery state identity mismatch")
    else if "migration" !in state.stages || |outcomes| != 1 then Err("Recovery lacks accepted compatibility authority")
    else
      var parts := Text.Split(outcomes[0], ":");
      if |parts| != 3 || parts[0] != "passed" then Err("Recovery lacks accepted compatibility authority")
      else if !Validates(evidence, ids, secret, keyId, now, parts[1], parts[2], f, c) then
        Err("Compatibility receipt is invalid")
      else
        var a := Authority("recovery", ids, previousAlembic, Some(c.digestReceipt(evidence)), now, None, keyId);
        if AuthorityOk(a, ids, secret, f) then Ok(a) else Err("invalid operator authority")
  }

  lemma OutcomeParts(r: Receipt, ids: Identities, keyId: string, secret: string, c: Crypto)
    requires ProducesDigests(c)
    ensures Text.Split(RecordedOutcome(r, ids, keyId, secret, c), ":")
         == ["passed", AcceptedDigest(r, c), AcceptedSignature(r, ids, keyId, secret, c)]
  {
    var parts := ["passed", AcceptedDigest(r, c), AcceptedSignature(r, ids, keyId, secret, c)];
    forall p | p in parts ensures ':' !in p {
      if p == "passed" {
        assert ':' !in "passed";
      } else {
        assert Text.IsSha256(p);
      }
    }
    Text.SplitJoin(parts, ":");
  }

  /** Everything about a recovery request that does not depend on when it is made. */
  predicate Recoverable(ids: Identities, declaredPredecessor: string, previousAlembic: string, secret: string,
      f: Formats) {
    && f.identifier(previousAlembic) && previousAlembic != "" && declaredPredecessor == ids.previousReleaseId != ""
    && ids.previousRevision != "" && ids.previousImage != "" && f.identifier(ids.forwardRevision) && |secret| >= 32
    && ids.targetImage != ids.previousImage && ids.targetRevision != ids.previousRevision
  }

  /** An outcome that passed without naming a receipt. */
  const UNANCHORED := "passed::"

  /** What `build_overlay` makes of the recorded outcome: it passes, and the evidence validates under its parts. */
  predicate Admits(outcome: string, evidence: Receipt, ids: Identities, secret: string, keyId: string, now: Time,
                   f: Formats, c: Crypto) {
    var parts := Text.Split(outcome, ":");
    && |parts| == 3 && parts[0] == "passed"
    && Validates(evidence, ids, secret, keyId, now, parts[1], parts[2], f, c)
  }

  lemma RecoverMeans(ids: Identities, declaredPredecessor: string, previousAlembic: string, state: ReleaseState.State,
                     evidence: Receipt, now: Time, keyId: string, secret: string, f: Formats, c: Crypto)
    requires ProducesDigests(c) && SameIdentities(state, ids)
    ensures var outcomes := ReleaseState.Outcomes(state.events, "compatibility");
            Recover(ids, declaredPredecessor, previousAlembic, state, evidence, now, keyId, secret, f, c).Ok?
            <==> && Recoverable(ids, declaredPredecessor, previousAlembic, secret, f)
                 && "migration" in state.stages && |outcomes| == 1
                 && Admits(outcomes[0], evidence, ids, secret, keyId, now, f, c)
  {
    hide Validates, Text.Split, ReleaseState.Outcomes, SameIdentities, Text.IsSha256;
    assert Text.IsSha256(c.digestReceipt(evidence));
  }

  lemma UnanchoredParts()
    ensures Text.Split(UNANCHORED, ":") == ["passed", "", ""]
  {
    var parts := ["passed", "", ""];
    assert ':' !in "passed" && ':' !in "";
    Text.SplitJoin(parts, ":");
    assert parts[1..] == ["", ""] && parts[1..][1..] == [""];
    assert Text.Join(parts, ":") == UNANCHORED;
  }

  /**
    Which outcomes admit which evidence, for any of either: an outcome that names the evidence
    by its digest and acceptance signature, or the unanchored one, while the evidence is fresh.
   */
  lemma AdmittedOutcomes(outcome: string, evidence: Receipt, ids: Identities, secret: string, keyId: string, now: Time,
                         f: Formats, c: Crypto)
    requires ProducesDigests(c)
    ensures Admits(outcome, evidence, ids, secret, keyId, now, f, c)
       <==> || (&& outcome == RecordedOutcome(evidence, ids, keyId, secret, c)
                && Validates(evidence, ids, secret, keyId, now, AcceptedDigest(evidence, c),
                             AcceptedSignature(evidence, ids, keyId, secret, c), f, c))
            || (outcome == UNANCHORED && Validates(evidence, ids, secret, keyId, now, "", "", f, c))
  {
    if Admits(outcome, evidence, ids, secret, keyId, now, f, c) {
      AdmittedNames(outcome, evidence, ids, secret, keyId, now, f, c);
    }
    NamedAdmits(evidence, ids, secret, keyId, now, f, c);
    hide Validates, Admits, RecordedOutcome;
  }

  lemma ThreeParts(outcome: string)
    requires |Text.Split(outcome, ":")| == 3
    ensures var parts := Text.Split(outcome, ":"); outcome == Text.Join([parts[0], parts[1], parts[2]], ":")
  {
    Text.JoinSplit(outcome, ":");
    var parts := Text.Split(outcome, ":");
    assert parts == [parts[0], parts[1], parts[2]];
    hide Text.Split, Text.Join;
  }

  lemma UnanchoredJoins()
    ensures UNANCHORED == Text.Join(["passed", "", ""], ":")
  {
    UnanchoredParts();
    Text.JoinSplit(UNANCHORED, ":");
    hide Text.Split, Text.Join;
  }

  lemma AdmittedNames(outcome: string, evidence: Receipt, ids: Identities, secret: string, keyId: string, now: Time,
                      f: Formats, c: Crypto)
    requires Admits(outcome, evidence, ids, secret, keyId, now, f, c)
    ensures || (&& outcome == RecordedOutcome(evidence, ids, keyId, secret, c)
                && Validates(evidence, ids, secret, keyId, now, AcceptedDigest(evidence, c),
                             AcceptedSignature(evidence, ids, keyId, secret, c), f, c))
            || (outcome == UNANCHORED && Validates(evidence, ids, secret, keyId, now, "", "", f, c))
  {
    hide Validates, Text.Split, Text.Join, UNANCHORED, AcceptedDigest, AcceptedSignature;
    var parts := Text.Split(outcome, ":");
    ThreeParts(outcome);
    UnanchoredJoins();
    ValidatedParts(evidence, ids, secret, keyId, now, parts[1], parts[2], f, c);
  }

  lemma NamedAdmits(evidence: Receipt, ids: Identities, secret: string, keyId: string, now: Time, f: Formats, c: Crypto)
    requires ProducesDigests(c)
    ensures Admits(RecordedOutcome(evidence, ids, keyId, secret, c), evidence, ids, secret, keyId, now, f, c)
       <==> Validates(evidence, ids, secret, keyId, now, AcceptedDigest(evidence, c),
                      AcceptedSignature(evidence, ids, keyId, secret, c), f, c)
    ensures Admits(UNANCHORED, evidence, ids, secret, keyId, now, f, c)
       <==> Validates(evidence, ids, secret, keyId, now, "", "", f, c)
  {
    hide Validates, Text.Split, Text.Join, UNANCHORED, AcceptedDigest, AcceptedSignature, RecordedOutcome;
    OutcomeParts(evidence, ids, keyId, secret, c);
    UnanchoredParts();
  }

  /** The digest and signature a receipt validates under are its own, or both are empty. */
  lemma ValidatedParts(r: Receipt, ids: Identities, secret: string, keyId: string, now: Time, sha: string, mac: string,
                       f: Formats, c: Crypto)
    requires Validates(r, ids, secret, keyId, now, sha, mac, f, c)
    ensures || (sha == "" && mac == "")
            || (sha == AcceptedDigest(r, c) && mac == AcceptedSignature(r, ids, keyId, secret, c))
  {
    hide ClaimsMatch, FormatsOk, PredecessorOk;
  }

  /**
    Recovery from any state the state machine can reach, whatever outcome it recorded and whatever
    the evidence: granted exactly for a recoverable request when the recorded outcome names the
    evidence and the evidence validates under it, or names nothing and the evidence is fresh.
   */
  lemma RecoveryExactly(
      commands: seq<ReleaseState.Command>, wellFormed: ReleaseState.Identity -> bool, state: ReleaseState.State,
      ids: Identities, declaredPredecessor: string, previousAlembic: string, evidence: Receipt, now: Time,
      keyId: string, secret: string, f: Formats, c: Crypto)
    requires ProducesDigests(c)
    requires ReleaseState.Run(None, commands, wellFormed) == Some(state) && SameIdentities(state, ids)
    ensures Recover(ids, declaredPredecessor, previousAlembic, state, evidence, now, keyId, secret, f, c).Ok?
       <==> && Recoverable(ids, declaredPredecessor, previousAlembic, secret, f) && |state.events| > 3
            && (|| (&& state.events[3].outcome == RecordedOutcome(evidence, ids, keyId, secret, c)
                    && Validates(evidence, ids, secret, keyId, now, AcceptedDigest(evidence, c),
                                 AcceptedSignature(evidence, ids, keyId, secret, c), f, c))
                || (&& state.events[3].outcome == UNANCHORED
                    && Validates(evidence, ids, secret, keyId, now, "", "", f, c)))
  {
    RecoverMeans(ids, declaredPredecessor, previousAlembic, state, evidence, now, keyId, secret, f, c);
    ReleaseState.ReachableStatesAreOrdered(commands, wellFormed);
    ReleaseState.CompatibilityImpliesMigration(state, wellFormed);
    if |state.events| > 3 {
      AdmittedOutcomes(state.events[3].outcome, evidence, ids, secret, keyId, now, f, c);
    }
    hide Validates, Admits, Recover, Recoverable, SameIdentities, RecordedOutcome;
    hide ReleaseState.Outcomes, ReleaseState.Run;
  }

  /**
    So for a built receipt: recovery is granted on it exactly for a recoverable request, from its
    generation on, when the state recorded its acceptance, for ever, or when it recorded an
    unanchored outcome, for half an hour.
   */
  lemma RecoveryOnBuiltReceipt(
      commands: seq<ReleaseState.Command>, wellFormed: ReleaseState.Identity -> bool, state: ReleaseState.State,
      ids: Identities, declaredPredecessor: string, previousAlembic: string,
      readiness: Option<Output>, reportSchema: Option<Output>, generatedAt: Time, now: Time,
      keyId: string, secret: string, f: Formats, c: Crypto)
    requires ProducesDigests(c) && Build(ids, readiness, reportSchema, generatedAt, keyId, secret, f, c).Ok?
    requires ReleaseState.Run(None, commands, wellFormed) == Some(state) && SameIdentities(state, ids)
    ensures var r := Build(ids, readiness, reportSchema, generatedAt, keyId, secret, f, c).value;
            Recover(ids, declaredPredecessor, previousAlembic, state, r, now, keyId, secret, f, c).Ok?
            <==> && Recoverable(ids, declaredPredecessor, previousAlembic, secret, f)
                 && |state.events| > 3 && generatedAt <= now
                 && (|| state.events[3].outcome == RecordedOutcome(r, ids, keyId, secret, c)
                     || (state.events[3].outcome == UNANCHORED && now <= generatedAt + MAX_AGE))
  {
    var r := Build(ids, readiness, reportSchema, generatedAt, keyId, secret, f, c).value;
    RecoveryExactly(commands, wellFormed, state, ids, declaredPredecessor, previousAlembic, r, now,
                    keyId, secret, f, c);
    AcceptedForEver(ids, readiness, reportSchema, generatedAt, keyId, secret, f, c, now);
    FreshForHalfAnHour(ids, readiness, reportSchema, generatedAt, keyId, secret, f, c, now);
    hide Validates, Build, Recover, Recoverable, SameIdentities, RecordedOutcome, ReleaseState.Run;
  }

  /** An acceptance, once recorded, never expires. */
  lemma RecoveryNeverExpires(
      commands: seq<ReleaseState.Command>, wellFormed: ReleaseState.Identity -> bool, state: ReleaseState.State,
      ids: Identities, declaredPredecessor: string, previousAlembic: string,
      readiness: Option<Output>, reportSchema: Option<Output>, generatedAt: Time, now: Time,
      keyId: string, secret: string, f: Formats, c: Crypto)
    requires ProducesDigests(c) && Build(ids, readiness, reportSchema, generatedAt, keyId, secret, f, c).Ok?
    requires ReleaseState.Run(None, commands, wellFormed) == Some(state) && SameIdentities(state, ids)
    requires |state.events| > 3
    requires var r := Build(ids, readiness, reportSchema, generatedAt, keyId, secret, f, c).value;
             state.events[3].outcome == RecordedOutcome(r, ids, keyId, secret, c)
    ensures var r := Build(ids, readiness, reportSchema, generatedAt, keyId, secret, f, c).value;
            Recover(ids, declaredPredecessor, previousAlembic, state, r, now, keyId, secret, f, c).Ok?
            <==> generatedAt <= now && Recoverable(ids, declaredPredecessor, previousAlembic, secret, f)
  {
    hide *;
    RecoveryOnBuiltReceipt(commands, wellFormed, state, ids, declaredPredecessor, previousAlembic,
                           readiness, reportSchema, generatedAt, now, keyId, secret, f, c);
  }

  /** Two receipts with the same recorded outcome have the same digest; and no receipt's is the unanchored one. */
  lemma OutcomeNamesReceipt(r: Receipt, s: Receipt, ids: Identities, keyId: string, secret: string, c: Crypto)
    requires ProducesDigests(c)
    ensures RecordedOutcome(r, ids, keyId, secret, c) == RecordedOutcome(s, ids, keyId, secret, c) ==>
              c.digestReceipt(r) == c.digestReceipt(s)
    ensures RecordedOutcome(r, ids, keyId, secret, c) != UNANCHORED
  {
    OutcomeParts(r, ids, keyId, secret, c);
    OutcomeParts(s, ids, keyId, secret, c);
    UnanchoredParts();
    assert Text.IsSha256(c.digestReceipt(r));
    hide RecordedOutcome, Text.Split;
  }

  /**
    The acceptance a reachable state records binds recovery to one receipt: where the digest
    tells the two receipts apart, recovery of the same release is granted on the evidence exactly
    when that evidence is the recorded receipt, whatever its age, and the request is recoverable.
   */
  lemma RecoveryOnlyForRecordedReceipt(
      commands: seq<ReleaseState.Command>, wellFormed: ReleaseState.Identity -> bool, state: ReleaseState.State,
      ids: Identities, declaredPredecessor: string, previousAlembic: string,
      readiness: Option<Output>, reportSchema: Option<Output>, generatedAt: Time, now: Time,
      keyId: string, secret: string, f: Formats, c: Crypto, evidence: Receipt)
    requires ProducesDigests(c) && Build(ids, readiness, reportSchema, generatedAt, keyId, secret, f, c).Ok?
    requires ReleaseState.Run(None, commands, wellFormed) == Some(state) && SameIdentities(state, ids)
    requires |state.events| > 3
    requires var r := Build(ids, readiness, reportSchema, generatedAt, keyId, secret, f, c).value;
             && state.events[3].outcome == RecordedOutcome(r, ids, keyId, secret, c)
             && (c.digestReceipt(evidence) == c.digestReceipt(r) ==> evidence == r)
    ensures var r := Build(ids, readiness, reportSchema, generatedAt, keyId, secret, f, c).value;
            Recover(ids, declaredPredecessor, previousAlembic, state, evidence, now, keyId, secret, f, c).Ok?
            <==> && evidence == r && generatedAt <= now
                 && Recoverable(ids, declaredPredecessor, previousAlembic, secret, f)
  {
    var r := Build(ids, readiness, reportSchema, generatedAt, keyId, secret, f, c).value;
    hide *;
    RecoveryNeverExpires(commands, wellFormed, state, ids, declaredPredecessor, previousAlembic,
                         readiness, reportSchema, generatedAt, now, keyId, secret, f, c);
    RecoveryExactly(commands, wellFormed, state, ids, declaredPredecessor, previousAlembic, evidence, now,
                    keyId, secret, f, c);
    OutcomeNamesReceipt(r, evidence, ids, keyId, secret, c);
  }

  // ----- What is issued, what is built, and what evidence binds -----

  /**
    What a granted recovery issues: an authority for exactly the requested identities, which are
    those of the recorded state; for the evidence, which the recorded outcome names unless it is
    unanchored; without expiry, at the time of the request.
   */
  lemma RecoveredAuthority(
      commands: seq<ReleaseState.Command>, wellFormed: ReleaseState.Identity -> bool, state: ReleaseState.State,
      ids: Identities, declaredPredecessor: string, previousAlembic: string, evidence: Receipt, now: Time,
      keyId: string, secret: string, f: Formats, c: Crypto)
    requires ProducesDigests(c) && ReleaseState.Run(None, commands, wellFormed) == Some(state)
    requires Recover(ids, declaredPredecessor, previousAlembic, state, evidence, now, keyId, secret, f, c).Ok?
    ensures var a :=
              Recover(ids, declaredPredecessor, previousAlembic, state, evidence, now, keyId, secret, f, c).value;
            && a.scope == "recovery" && a.identities == ids && a.keyId == keyId && a.previousAlembic == previousAlembic
            && a.identities.targetReleaseId == state.identity.releaseId
            && a.identities.targetRevision == state.identity.revision
            && a.identities.targetImage == state.identity.backendImage
            && Some(a.identities.previousReleaseId) == state.identity.previousReleaseId
            && a.acceptedSha == Some(c.digestReceipt(evidence)) && a.issuedAt == now && a.expiresAt == None
    ensures |state.events| > 3
    ensures state.events[3].outcome != "passed::" ==>
              var parts := Text.Split(state.events[3].outcome, ":");
              |parts| == 3 && parts[0] == "passed" && parts[1] == c.digestReceipt(evidence)
  {
    GrantedFields(ids, declaredPredecessor, previousAlembic, state, evidence, now, keyId, secret, f, c);
    RecoveryExactly(commands, wellFormed, state, ids, declaredPredecessor, previousAlembic, evidence, now,
                    keyId, secret, f, c);
    OutcomeParts(evidence, ids, keyId, secret, c);
    hide Recover, Validates, RecordedOutcome, Recoverable, Text.Split, ReleaseState.Run;
  }

  lemma GrantedFields(ids: Identities, declaredPredecessor: string, previousAlembic: string, state: ReleaseState.State,
                      evidence: Receipt, now: Time, keyId: string, secret: string, f: Formats, c: Crypto)
    requires Recover(ids, declaredPredecessor, previousAlembic, state, evidence, now, keyId, secret, f, c).Ok?
    ensures SameIdentities(state, ids)
    ensures Recover(ids, declaredPredecessor, previousAlembic, state, evidence, now, keyId, secret, f, c).value
         == Authority("recovery", ids, previousAlembic, Some(c.digestReceipt(evidence)), now, None, keyId)
  {
    hide Validates, Text.Split, ReleaseState.Outcomes, AuthorityOk, SameIdentities;
  }

  /** A probe output of the previous release, from the half hour before the receipt, that passed its own checks. */
  predicate FreshPassingProbe(o: Output, ids: Identities, generatedAt: Time) {
    && o.releaseRevision == ids.previousRevision && o.forwardRevision == ids.forwardRevision && o.passed
    && generatedAt - 1_800_000_000 <= o.checkedAt <= generatedAt
  }

  /**
    Exactly when a receipt can be built: for well-formed identities, either without predecessor and
    probes, or with a whole predecessor and two fresh probes of it that passed.
   */
  lemma BuiltExactly(ids: Identities, readiness: Option<Output>, reportSchema: Option<Output>, generatedAt: Time,
                     keyId: string, secret: string, f: Formats, c: Crypto)
    requires ProducesDigests(c)
    ensures Build(ids, readiness, reportSchema, generatedAt, keyId, secret, f, c).Ok?
       <==> && f.releaseId(ids.targetReleaseId) && f.revision(ids.targetRevision) && f.image(ids.targetImage)
            && Text.Strip(ids.forwardRevision) != "" && f.keyId(keyId) && f.secret(secret)
            && if ids.previousReleaseId == "" then
                 ids.previousRevision == "" && ids.previousImage == "" && readiness == None && reportSchema == None
               else
                 && f.releaseId(ids.previousReleaseId) && f.revision(ids.previousRevision) && f.image(ids.previousImage)
                 && readiness.Some? && FreshPassingProbe(readiness.value, ids, generatedAt)
                 && reportSchema.Some? && FreshPassingProbe(reportSchema.value, ids, generatedAt)
  {
    BodyValidates(ids, None, generatedAt, keyId, secret, f, c);
    if readiness.Some? && reportSchema.Some? {
      BodyValidates(ids, Some(Probes(ProbeFor(readiness.value, c), ProbeFor(reportSchema.value, c))),
                    generatedAt, keyId, secret, f, c);
      ProbeValidates(readiness.value, ids, generatedAt, c);
      ProbeValidates(reportSchema.value, ids, generatedAt, c);
    }
    hide Text.IsSha256, Text.Strip, Validates, ProbeOk, ProbeFor, BodyOf, FreshPassingProbe, ProducesDigests;
  }

  lemma ProbeValidates(o: Output, ids: Identities, generatedAt: Time, c: Crypto)
    requires ProducesDigests(c)
    ensures ProbeOk(ProbeFor(o, c), ids, generatedAt, c) <==> FreshPassingProbe(o, ids, generatedAt)
  {
    assert Text.IsSha256(c.digestOutput(o));
    hide Text.IsSha256;
  }

  lemma BodyValidates(ids: Identities, probes: Option<Probes>, generatedAt: Time, keyId: string, secret: string,
                      f: Formats, c: Crypto)
    requires ProducesDigests(c)
    ensures var b := BodyOf(ids, probes, generatedAt, keyId);
            (Validates(Receipt(b, c.macBody(secret, b)), ids, secret, keyId, generatedAt, "", "", f, c)
             <==> && FormatsOk(ids, secret, keyId, f)
                  && if ids.previousReleaseId == "" then
                       ids.previousRevision == "" && ids.previousImage == "" && probes == None
                     else
                       && f.releaseId(ids.previousReleaseId) && f.revision(ids.previousRevision)
                       && f.image(ids.previousImage)
                       && probes.Some? && ProbeOk(probes.value.readiness, ids, generatedAt, c)
                       && ProbeOk(probes.value.reportSchema, ids, generatedAt, c))
  {
    assert Text.IsSha256(c.macBody(secret, BodyOf(ids, probes, generatedAt, keyId)));
    hide Text.IsSha256, ProbeOk, FormatsOk;
  }

  /** What a built receipt says: the release it is for, when it was made, and nothing of its own. */
  lemma BuiltSays(ids: Identities, readiness: Option<Output>, reportSchema: Option<Output>, generatedAt: Time,
                  keyId: string, secret: string, f: Formats, c: Crypto)
    requires Build(ids, readiness, reportSchema, generatedAt, keyId, secret, f, c).Ok?
    ensures var r := Build(ids, readiness, reportSchema, generatedAt, keyId, secret, f, c).value;
            && r.body.targetReleaseId == ids.targetReleaseId && r.body.targetRevision == ids.targetRevision
            && r.body.targetImage == ids.targetImage && r.body.forwardRevision == ids.forwardRevision
            && r.body.generatedAt == generatedAt && r.body.keyId == keyId && r.signature == c.macBody(secret, r.body)
            && (ids.previousReleaseId == "" ==>
                  && r.body.previousReleaseId == None && r.body.previousRevision == None
                  && r.body.previousImage == None && r.body.probes == None)
            && (ids.previousReleaseId != "" ==>
                  && r.body.previousReleaseId == Some(ids.previousReleaseId)
                  && readiness.Some? && reportSchema.Some? && r.body.probes.Some?
                  && r.body.probes.value.readiness.output == readiness.value
                  && r.body.probes.value.reportSchema.output == reportSchema.value)
  {
    hide ClaimsMatch, FormatsOk, ProbeOk, Text.IsSha256;
  }

  /** Evidence is good for one release and one key only. */
  lemma EvidenceBindsIdentities(
      r: Receipt, ids: Identities, secret: string, keyId: string, now: Time, sha: string, mac: string,
      ids': Identities, secret': string, keyId': string, now': Time, sha': string, mac': string, f: Formats, c: Crypto)
    requires Validates(r, ids, secret, keyId, now, sha, mac, f, c)
    requires Validates(r, ids', secret', keyId', now', sha', mac', f, c)
    ensures ids == ids' && keyId == keyId'
    ensures c.macBody(secret, r.body) == c.macBody(secret', r.body) == r.signature
  {
    hide FormatsOk, Text.IsSha256, ProbeOk;
  }

  /** An acceptance signature covers the receipt, the target and the key: two agree only in all of them. */
  lemma AcceptanceCovers(sha: string, ids: Identities, keyId: string, sha': string, ids': Identities, keyId': string)
    ensures AcceptanceOf(sha, ids, keyId) == AcceptanceOf(sha', ids', keyId')
       <==> && sha == sha' && keyId == keyId' && ids.targetImage == ids'.targetImage
            && ids.targetReleaseId == ids'.targetReleaseId && ids.targetRevision == ids'.targetRevision
  {
  }
}
