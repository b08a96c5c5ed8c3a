/**
  alembic/versions/0106_development_baseline.py: payout submission intents, which fence
  concurrent submitters by claim generation, with their attempts and observations.
 */
module SubmissionIntents {
  import opened Wrappers
  import Orders

  type Id = nat

  datatype State = Pending | Claimed | QueryOnly | Resolved | Cancelled
  datatype Action = Submit | Query
  datatype Outcome = Submitted | Found | NotFound | Unknown

  datatype Intent = Intent(
    id: Id, line: Id, provider: string, key: string, instruction: string, fingerprint: string,
    requestedBy: Id, createdAt: int, state: State, generation: int,
    claimToken: Option<Id>, claimAction: Option<Action>, claimExpires: Option<int>,
    reference: Option<string>, resolvedAt: Option<int>)

  datatype Attempt = Attempt(
    id: Id, intent: Id, generation: int, claimToken: Id, action: Action, key: string, fingerprint: string)

  datatype Observation = Observation(
    id: Id, attempt: Id, intent: Id, generation: int, key: string, fingerprint: string,
    outcome: Outcome, reference: Option<string>, evidence: string)

  /** The three tables, each in insertion order. A row keeps its place when it is updated. */
  datatype Db = Db(intents: seq<Intent>, attempts: seq<Attempt>, observations: seq<Observation>)

  datatype Statement =
    | InsertIntent(intent: Intent)
    | UpdateIntent(row: nat, newIntent: Intent)
    | InsertAttempt(attempt: Attempt)
    | InsertObservation(observation: Observation)
    /** Any DELETE, and any UPDATE of an attempt or an observation. */
    | RewriteHistory

  const EMPTY := Db([], [], [])

  // ----- Checks, indexes, foreign keys and the guard -----

  predicate StateFieldsOk(r: Intent) {
    match r.state
    case Pending | QueryOnly =>
      r.claimToken.None? && r.claimAction.None? && r.claimExpires.None? && r.reference.None? && r.resolvedAt.None?
    case Claimed =>
      && r.generation > 0 && r.claimToken.Some? && r.claimAction.Some? && r.claimExpires.Some?
      && r.reference.None? && r.resolvedAt.None?
    case Resolved =>
      r.claimToken.None? && r.claimAction.None? && r.claimExpires.None? && r.reference.Some? && r.resolvedAt.Some?
    case Cancelled =>
      r.claimToken.None? && r.claimAction.None? && r.claimExpires.None? && r.reference.None? && r.resolvedAt.Some?
  }

  predicate IntentChecks(r: Intent) {
    r.generation >= 0 && |r.key| == 64 && |r.fingerprint| == 64 && StateFieldsOk(r)
  }

  predicate IntentsCompatible(a: Intent, b: Intent) {
    && a.id != b.id && a.key != b.key && a.line != b.line
    && (a.claimToken.Some? ==> a.claimToken != b.claimToken)
    && (a.reference.Some? ==> a.reference != b.reference)
  }

  predicate IntentIndexes(rows: seq<Intent>) {
    forall i, j | 0 <= i < j < |rows| :: IntentsCompatible(rows[i], rows[j])
  }

  predicate AttemptChecks(a: Attempt) {
    a.generation > 0 && |a.key| == 64 && |a.fingerprint| == 64
  }

  predicate AttemptsCompatible(a: Attempt, b: Attempt) {
    a.id != b.id && a.claimToken != b.claimToken && !(a.intent == b.intent && a.generation == b.generation)
  }

  predicate AttemptIndexes(rows: seq<Attempt>) {
    forall i, j | 0 <= i < j < |rows| :: AttemptsCompatible(rows[i], rows[j])
  }

  predicate ObservationChecks(o: Observation) {
    && o.generation > 0 && |o.key| == 64 && |o.fingerprint| == 64 && |o.evidence| == 64
    && o.reference.Some? == (o.outcome in {Submitted, Found})
  }

  predicate ObservationsCompatible(a: Observation, b: Observation) {
    a.id != b.id && a.attempt != b.attempt && !(a.intent == b.intent && a.generation == b.generation)
  }

  predicate ObservationIndexes(rows: seq<Observation>) {
    forall i, j | 0 <= i < j < |rows| :: ObservationsCompatible(rows[i], rows[j])
  }

  /** The composite foreign key: the observation repeats the identity of its attempt. */
  predicate BoundTo(o: Observation, a: Attempt) {
    o.attempt == a.id && o.intent == a.intent && o.generation == a.generation && o.key == a.key
        && o.fingerprint == a.fingerprint
  }

  predicate HasIntent(rows: seq<Intent>, id: Id) {
    exists i :: 0 <= i < |rows| && rows[i].id == id
  }

  predicate AttemptsHaveIntents(db: Db) {
    forall k | 0 <= k < |db.attempts| :: HasIntent(db.intents, db.attempts[k].intent)
  }

  predicate Observes(db: Db, o: Observation) {
    exists k :: 0 <= k < |db.attempts| && BoundTo(o, db.attempts[k])
  }

  /** The state machine of `guard_payout_submission_intent_mutation`. */
  predicate TransitionOk(old': Intent, new': Intent) {
    || (old'.state in {Pending, QueryOnly} && new'.state == Claimed && new'.generation == old'.generation + 1)
    || (old'.state == Claimed && new'.state == Claimed && new'.generation == old'.generation + 1)
    || (old'.state == Claimed && new'.state in {Pending, QueryOnly, Resolved} && new'.generation == old'.generation)
    || (old'.state == Pending && new'.state == Cancelled && new'.generation == old'.generation)
  }

  predicate Guard(old': Intent, new': Intent) {
    && new'.line == old'.line && new'.provider == old'.provider && new'.key == old'.key
    && new'.instruction == old'.instruction && new'.fingerprint == old'.fingerprint
    && new'.requestedBy == old'.requestedBy && new'.createdAt == old'.createdAt
    && TransitionOk(old', new')
  }

  predicate Accepts(db: Db, s: Statement) {
    match s
    case InsertIntent(r) => IntentChecks(r) && IntentIndexes(db.intents + [r])
    case UpdateIntent(k, r) =>
      && k < |db.intents| && Guard(db.intents[k], r) && IntentChecks(r) && IntentIndexes(db.intents[k := r])
      && AttemptsHaveIntents(db.(intents := db.intents[k := r]))
    case InsertAttempt(a) =>
      && AttemptChecks(a) && AttemptIndexes(db.attempts + [a])
      && AttemptsHaveIntents(db.(attempts := db.attempts + [a]))
    case InsertObservation(o) =>
      ObservationChecks(o) && ObservationIndexes(db.observations + [o]) && Observes(db, o)
    case RewriteHistory => false
  }

  function After(db: Db, s: Statement): Db {
    if !Accepts(db, s) then db
    else
      match s
      case InsertIntent(r) => db.(intents := db.intents + [r])
      case UpdateIntent(k, r) => db.(intents := db.intents[k := r])
      case InsertAttempt(a) => db.(attempts := db.attempts + [a])
      case InsertObservation(o) => db.(observations := db.observations + [o])
      case RewriteHistory => db
  }

  function Run(db: Db, statements: seq<Statement>): Db {
    if statements == [] then db
    else After(Run(db, statements[..|statements| - 1]), statements[|statements| - 1])
  }

  // ----- The invariant -----

  predicate HistoryOk(db: Db) {
    && AttemptIndexes(db.attempts) && ObservationIndexes(db.observations) && AttemptsHaveIntents(db)
    && (forall k | 0 <= k < |db.attempts| :: AttemptChecks(db.attempts[k]))
    && (forall k | 0 <= k < |db.observations| :: ObservationChecks(db.observations[k]))
    && forall k | 0 <= k < |db.observations| :: Observes(db, db.observations[k])
  }

  predicate Consistent(db: Db) {
    && (forall k | 0 <= k < |db.intents| :: IntentChecks(db.intents[k])) && IntentIndexes(db.intents)
    && HistoryOk(db)
  }

  lemma ConsistentKept(db: Db, s: Statement)
    requires Consistent(db)
    ensures Consistent(After(db, s))
  {
    StepKeepsHistory(db, s);
    hide HistoryOk;
  }

  /** The tables as the database holds them, changed in place by one statement at a time. */
  class Tables {
    var intents: seq<Intent>
    var attempts: seq<Attempt>
    var observations: seq<Observation>

    constructor ()
      ensures Contents() == EMPTY && Consistent(Contents())
    {
      intents, attempts, observations := [], [], [];
    }

    ghost function Contents(): Db
      reads this
    {
      Db(intents, attempts, observations)
    }

    /** INSERT INTO payout_submission_intents; the unique indexes are searched for the new row's values. */
    method Request(row: Intent) returns (ok: bool)
      requires Consistent(Contents())
      modifies this
      ensures ok <==> Accepts(old(Contents()), InsertIntent(row))
      ensures Contents() == After(old(Contents()), InsertIntent(row)) && Consistent(Contents())
    {
      ConsistentKept(Contents(), InsertIntent(row));
      RequestIndexes(intents, row);
      hide IntentIndexes, IntentsCompatible, HistoryOk;
      if !IntentChecks(row) { return false; }
      if exists k | 0 <= k < |intents| :: !IntentsCompatible(intents[k], row) { return false; }
      intents := intents + [row];
      return true;
    }

    /** UPDATE payout_submission_intents: the guard, then the constraints. */
    method Update(k: nat, row: Intent) returns (ok: bool)
      requires Consistent(Contents())
      modifies this
      ensures ok <==> Accepts(old(Contents()), UpdateIntent(k, row))
      ensures Contents() == After(old(Contents()), UpdateIntent(k, row)) && Consistent(Contents())
    {
      hide Consistent;
      ConsistentKept(Contents(), UpdateIntent(k, row));
      if k >= |intents| { return false; }
      var before := intents[k];
      if row.line != before.line || row.provider != before.provider || row.key != before.key
         || row.instruction != before.instruction || row.fingerprint != before.fingerprint
         || row.requestedBy != before.requestedBy || row.createdAt != before.createdAt
      {
        return false;
      }
      var claims := before.state in {Pending, QueryOnly, Claimed} && row.state == Claimed
                    && row.generation == before.generation + 1;
      var releases := before.state == Claimed && row.state in {Pending, QueryOnly, Resolved}
                      && row.generation == before.generation;
      var cancels := before.state == Pending && row.state == Cancelled && row.generation == before.generation;
      if !(claims || releases || cancels) { return false; }
      if !IntentChecks(row) || !IntentIndexes(intents[k := row]) { return false; }
      if !AttemptsHaveIntents(Db(intents[k := row], attempts, observations)) { return false; }
      intents := intents[k := row];
      return true;
    }

    /** INSERT INTO payout_submission_attempts: its unique indexes and its foreign key are searched for the new row. */
    method Attempt(row: Attempt) returns (ok: bool)
      requires Consistent(Contents())
      modifies this
      ensures ok <==> Accepts(old(Contents()), InsertAttempt(row))
      ensures Contents() == After(old(Contents()), InsertAttempt(row)) && Consistent(Contents())
    {
      ConsistentKept(Contents(), InsertAttempt(row));
      AttemptAccepted(Contents(), row);
      hide AttemptIndexes, AttemptsCompatible, AttemptsHaveIntents, IntentIndexes, HistoryOk, HasIntent;
      if !AttemptChecks(row) { return false; }
      if exists k | 0 <= k < |attempts| :: !AttemptsCompatible(attempts[k], row) { return false; }
      if !HasIntent(intents, row.intent) { return false; }
      attempts := attempts + [row];
      return true;
    }

    /** INSERT INTO payout_submission_observations: the attempt is looked up by id and compared. */
    method Observe(row: Observation) returns (ok: bool)
      requires Consistent(Contents())
      modifies this
      ensures ok <==> Accepts(old(Contents()), InsertObservation(row))
      ensures Contents() == After(old(Contents()), InsertObservation(row)) && Consistent(Contents())
    {
      ConsistentKept(Contents(), InsertObservation(row));
      ObservationIndexesGrow(observations, row);
      hide ObservationIndexes, ObservationsCompatible, IntentIndexes;
      if !ObservationChecks(row) { return false; }
      if exists k | 0 <= k < |observations| :: !ObservationsCompatible(observations[k], row) { return false; }
      var found := FindAttempt(row.attempt);
      if found < 0 || !BoundTo(row, attempts[found]) {
        return false;
      }
      observations := observations + [row];
      return true;
    }

    /** The row of an attempt, or -1. */
    method FindAttempt(id: Id) returns (k: int)
      requires AttemptIndexes(attempts)
      ensures -1 <= k < |attempts|
      ensures k >= 0 ==> forall j | 0 <= j < |attempts| :: attempts[j].id == id <==> j == k
      ensures k < 0 ==> forall j | 0 <= j < |attempts| :: attempts[j].id != id
    {
      for n := 0 to |attempts|
        invariant forall j | 0 <= j < n :: attempts[j].id != id
      {
        if attempts[n].id == id {
          assert forall j | n < j < |attempts| :: AttemptsCompatible(attempts[n], attempts[j]);
          return n;
        }
      }
      return -1;
    }
  }

  lemma RequestIndexes(rows: seq<Intent>, row: Intent)
    requires IntentIndexes(rows)
    ensures IntentIndexes(rows + [row]) <==> forall k | 0 <= k < |rows| :: IntentsCompatible(rows[k], row)
  {
    var after := rows + [row];
    if IntentIndexes(after) {
      forall k | 0 <= k < |rows| ensures IntentsCompatible(rows[k], row) {
        assert IntentsCompatible(after[k], after[|rows|]);
      }
    }
  }

  lemma AttemptAccepted(db: Db, row: Attempt)
    requires HistoryOk(db)
    ensures AttemptIndexes(db.attempts + [row])
       <==> forall k | 0 <= k < |db.attempts| :: AttemptsCompatible(db.attempts[k], row)
    ensures AttemptsHaveIntents(db.(attempts := db.attempts + [row])) <==> HasIntent(db.intents, row.intent)
  {
    var after := db.attempts + [row];
    assert after[|db.attempts|] == row && forall k | 0 <= k < |db.attempts| :: after[k] == db.attempts[k];
  }

  lemma ObservationIndexesGrow(rows: seq<Observation>, row: Observation)
    requires ObservationIndexes(rows)
    ensures ObservationIndexes(rows + [row]) <==> forall k | 0 <= k < |rows| :: ObservationsCompatible(rows[k], row)
  {
    var after := rows + [row];
    assert after[|rows|] == row && forall k | 0 <= k < |rows| :: after[k] == rows[k];
  }

  // ----- Generations count claims -----

  /** The statement claims row `k`. */
  predicate Claims(db: Db, s: Statement, k: nat) {
    Accepts(db, s) && s.UpdateIntent? && s.row == k && s.newIntent.state == Claimed
  }

  function ClaimCount(db: Db, statements: seq<Statement>, k: nat): nat {
    if statements == [] then 0
    else
      var n := |statements| - 1;
      ClaimCount(db, statements[..n], k) + if Claims(Run(db, statements[..n]), statements[n], k) then 1 else 0
  }

  /** What row `k` of a run from empty tables was inserted as. */
  function Inserted(statements: seq<Statement>, k: nat): (r: Intent)
    requires k < |Run(EMPTY, statements).intents|
  {
    var n := |statements| - 1;
    var before := Run(EMPTY, statements[..n]);
    if k < |before.intents| then Inserted(statements[..n], k) else statements[n].intent
  }

  lemma StepOfRow(db: Db, s: Statement, k: nat)
    requires k < |db.intents|
    ensures k < |After(db, s).intents|
    ensures var before, after := db.intents[k], After(db, s).intents[k];
            && after.generation == before.generation + (if Claims(db, s, k) then 1 else 0)
            && (after == before || TransitionOk(before, after))
            && (before.state in {Resolved, Cancelled} ==> after == before)
  {
  }

  /** From any point on, the generation of a row grows by exactly the number of claims made on it. */
  lemma {:induction false} GenerationCountsClaims(db: Db, statements: seq<Statement>, k: nat)
    requires k < |db.intents|
    ensures k < |Run(db, statements).intents|
    ensures Run(db, statements).intents[k].generation == db.intents[k].generation + ClaimCount(db, statements, k)
  {
    if statements != [] {
      var n := |statements| - 1;
      GenerationCountsClaims(db, statements[..n], k);
      StepOfRow(Run(db, statements[..n]), statements[n], k);
    }
  }

  /**
    In every run from empty tables, the generation of an intent is the one it was inserted with
    plus the claims ever made on it; inserted pending, it needs a claim to be claimed, query-only
    or resolved.
   */
  lemma {:induction false} GenerationIsClaimCount(statements: seq<Statement>, k: nat)
    requires k < |Run(EMPTY, statements).intents|
    ensures var row, inserted := Run(EMPTY, statements).intents[k], Inserted(statements, k);
            && row.generation == inserted.generation + ClaimCount(EMPTY, statements, k)
            && (inserted.state == Pending && row.state in {Claimed, QueryOnly, Resolved} ==>
                  ClaimCount(EMPTY, statements, k) > 0)
  {
    var n := |statements| - 1;
    var before := Run(EMPTY, statements[..n]);
    if k < |before.intents| {
      GenerationIsClaimCount(statements[..n], k);
      StepOfRow(before, statements[n], k);
    } else {
      NoClaimsBefore(EMPTY, statements[..n], k);
    }
  }

  lemma {:induction false} NoClaimsBefore(db: Db, statements: seq<Statement>, k: nat)
    requires k >= |Run(db, statements).intents|
    ensures ClaimCount(db, statements, k) == 0
  {
    if statements != [] {
      var n := |statements| - 1;
      RowsStay(Run(db, statements[..n]), statements[n]);
      NoClaimsBefore(db, statements[..n], k);
    }
  }

  lemma RowsStay(db: Db, s: Statement)
    ensures |db.intents| <= |After(db, s).intents|
    ensures db.attempts <= After(db, s).attempts && db.observations <= After(db, s).observations
  {
  }

  // ----- Fencing -----

  /**
    Once a generation is superseded by a claim, no update that carries it, or an older one, is
    ever accepted again.
   */
  lemma SupersededGenerationIsFenced(db: Db, statements: seq<Statement>, k: nat, stale: Intent)
    requires k < |db.intents| && stale.generation < db.intents[k].generation
    ensures !Accepts(Run(db, statements), UpdateIntent(k, stale))
  {
    GenerationCountsClaims(db, statements, k);
  }

  /** The statement ends the claim of row `k` at generation `g`: released or resolved. */
  predicate Ends(db: Db, s: Statement, k: nat, g: int) {
    && Accepts(db, s) && s.UpdateIntent? && s.row == k
    && db.intents[k].state == Claimed && s.newIntent.state != Claimed && s.newIntent.generation == g
  }

  function EndCount(db: Db, statements: seq<Statement>, k: nat, g: int): nat {
    if statements == [] then 0
    else
      var n := |statements| - 1;
      EndCount(db, statements[..n], k, g) + if Ends(Run(db, statements[..n]), statements[n], k, g) then 1 else 0
  }

  /** The claim of generation `g` is over. */
  predicate Over(db: Db, k: nat, g: int) {
    k < |db.intents| && (db.intents[k].generation > g
        || (db.intents[k].generation == g && db.intents[k].state != Claimed))
  }

  /** Each generation of each intent is released or resolved at most once, in every run. */
  lemma {:induction false} OneOutcomePerGeneration(db: Db, statements: seq<Statement>, k: nat, g: int)
    ensures EndCount(db, statements, k, g) <= 1
    ensures EndCount(db, statements, k, g) == 1 ==> Over(Run(db, statements), k, g)
  {
    if statements != [] {
      var n := |statements| - 1;
      OneOutcomePerGeneration(db, statements[..n], k, g);
      var before := Run(db, statements[..n]);
      if k < |before.intents| { StepOfRow(before, statements[n], k); }
    }
  }

  /** Resolved and cancelled rows never change again, in any respect. */
  lemma {:induction false} FinalStatesAbsorb(db: Db, statements: seq<Statement>, k: nat)
    requires k < |db.intents| && db.intents[k].state in {Resolved, Cancelled}
    ensures k < |Run(db, statements).intents| && Run(db, statements).intents[k] == db.intents[k]
  {
    if statements != [] {
      var n := |statements| - 1;
      FinalStatesAbsorb(db, statements[..n], k);
      StepOfRow(Run(db, statements[..n]), statements[n], k);
    }
  }

  // ----- Attempts and observations -----

  lemma StepKeepsHistory(db: Db, s: Statement)
    requires HistoryOk(db)
    ensures HistoryOk(After(db, s))
  {
    var after := After(db, s);
    RowsStay(db, s);
    forall k | 0 <= k < |after.observations| ensures Observes(after, after.observations[k]) {
      assert Observes(db, after.observations[k]);
      var m :| 0 <= m < |db.attempts| && BoundTo(after.observations[k], db.attempts[m]);
      assert after.attempts[m] == db.attempts[m];
    }
    if Accepts(db, s) && s.InsertIntent? {
      forall k | 0 <= k < |db.attempts| ensures HasIntent(after.intents, db.attempts[k].intent) {
        var i :| 0 <= i < |db.intents| && db.intents[i].id == db.attempts[k].intent;
        assert after.intents[i] == db.intents[i];
      }
    }
  }

  lemma {:induction false} RunKeepsHistory(db: Db, statements: seq<Statement>)
    requires HistoryOk(db)
    ensures HistoryOk(Run(db, statements))
    ensures db.attempts <= Run(db, statements).attempts && db.observations <= Run(db, statements).observations
  {
    if statements != [] {
      var n := |statements| - 1;
      RunKeepsHistory(db, statements[..n]);
      StepKeepsHistory(Run(db, statements[..n]), statements[n]);
      RowsStay(Run(db, statements[..n]), statements[n]);
    }
  }

  /**
    After every run a generation of an intent has at most one attempt and at most one
    observation, and the observation is bound to that attempt.
   */
  lemma OneAttemptAndObservation(statements: seq<Statement>, intent: Id, g: int)
    ensures var db := Run(EMPTY, statements);
            forall a, b | a in db.attempts && b in db.attempts && a.intent == b.intent == intent
                          && a.generation == b.generation == g :: a == b
    ensures var db := Run(EMPTY, statements);
            forall a, b | a in db.observations && b in db.observations && a.intent == b.intent == intent
                          && a.generation == b.generation == g :: a == b
    ensures var db := Run(EMPTY, statements);
            forall o | o in db.observations && o.intent == intent && o.generation == g ::
              exists a :: a in db.attempts && BoundTo(o, a)
  {
    RunKeepsHistory(EMPTY, statements);
    var db := Run(EMPTY, statements);
    SameAttempt(db, intent, g);
    SameObservation(db, intent, g);
    forall o | o in db.observations ensures exists a :: a in db.attempts && BoundTo(o, a) {
      var k :| 0 <= k < |db.observations| && db.observations[k] == o;
      assert Observes(db, db.observations[k]);
      var m :| 0 <= m < |db.attempts| && BoundTo(o, db.attempts[m]);
      assert db.attempts[m] in db.attempts;
    }
  }

  lemma SameAttempt(db: Db, intent: Id, g: int)
    requires AttemptIndexes(db.attempts)
    ensures forall a, b | a in db.attempts && b in db.attempts && a.intent == b.intent == intent
                          && a.generation == b.generation == g :: a == b
  {
    forall a, b | a in db.attempts && b in db.attempts && a.intent == b.intent == intent
                  && a.generation == b.generation == g
      ensures a == b
    {
      var i :| 0 <= i < |db.attempts| && db.attempts[i] == a;
      var j :| 0 <= j < |db.attempts| && db.attempts[j] == b;
    }
  }

  lemma SameObservation(db: Db, intent: Id, g: int)
    requires ObservationIndexes(db.observations)
    ensures forall a, b | a in db.observations && b in db.observations && a.intent == b.intent == intent
                          && a.generation == b.generation == g :: a == b
  {
    forall a, b | a in db.observations && b in db.observations && a.intent == b.intent == intent
                  && a.generation == b.generation == g
      ensures a == b
    {
      var i :| 0 <= i < |db.observations| && db.observations[i] == a;
      var j :| 0 <= j < |db.observations| && db.observations[j] == b;
    }
  }

  /** An intent with an attempt keeps its id, so its attempts stay its own. */
  lemma AttemptedIntentKeepsId(db: Db, s: Statement, k: nat, a: Attempt)
    requires IntentIndexes(db.intents) && k < |db.intents| && a in db.attempts && a.intent == db.intents[k].id
    ensures k < |After(db, s).intents| && After(db, s).intents[k].id == db.intents[k].id
  {
    if Accepts(db, s) && s.UpdateIntent? && s.row == k {
      var after := After(db, s);
      var m :| 0 <= m < |db.attempts| && db.attempts[m] == a;
      assert HasIntent(after.intents, after.attempts[m].intent);
      var i :| 0 <= i < |after.intents| && after.intents[i].id == after.attempts[m].intent;
    }
  }

  predicate HasAttempt(db: Db, id: Id) {
    exists a :: a in db.attempts && a.intent == id
  }

  /** The row as a claim under a new id and a new token would leave it. */
  function Reclaimed(row: Intent, id: Id): Intent {
    row.(id := id, state := Claimed, generation := row.generation + 1,
         claimToken := Some(id), claimAction := Some(Submit), claimExpires := Some(0))
  }

  /** The id of an intent may be updated exactly while it has no attempt and can still be claimed. */
  lemma RenamedExactlyWithoutAttempts(db: Db, k: nat)
    requires Consistent(db) && k < |db.intents|
    ensures (exists r: Intent :: r.id != db.intents[k].id && Accepts(db, UpdateIntent(k, r)))
       <==> !HasAttempt(db, db.intents[k].id) && db.intents[k].state in {Pending, Claimed, QueryOnly}
  {
    var row := db.intents[k];
    if !HasAttempt(db, row.id) && row.state in {Pending, Claimed, QueryOnly} {
      var ids := set i | i in db.intents :: i.id;
      var tokens := set i | i in db.intents && i.claimToken.Some? :: i.claimToken.value;
      var unused := Orders.Unused(ids + tokens);
      assert forall i | i in db.intents :: i.id in ids && (i.claimToken.Some? ==> i.claimToken.value in tokens);
      ReclaimAccepted(db, k, unused);
    } else if exists r: Intent :: r.id != row.id && Accepts(db, UpdateIntent(k, r)) {
      var r: Intent :| r.id != row.id && Accepts(db, UpdateIntent(k, r));
      var a :| a in db.attempts && a.intent == row.id;
      AttemptedIntentKeepsId(db, UpdateIntent(k, r), k, a);
    }
  }

  lemma ReclaimAccepted(db: Db, k: nat, unused: Id)
    requires Consistent(db) && k < |db.intents| && db.intents[k].state in {Pending, Claimed, QueryOnly}
    requires !HasAttempt(db, db.intents[k].id)
    requires forall i | i in db.intents :: i.id < unused && (i.claimToken.Some? ==> i.claimToken.value < unused)
    ensures Accepts(db, UpdateIntent(k, Reclaimed(db.intents[k], unused)))
  {
    var row := Reclaimed(db.intents[k], unused);
    var after := db.intents[k := row];
    forall i, j | 0 <= i < j < |after| ensures IntentsCompatible(after[i], after[j]) {
      assert IntentsCompatible(db.intents[i], db.intents[j]);
      assert db.intents[i] in db.intents && db.intents[j] in db.intents;
    }
    forall m | 0 <= m < |db.attempts| ensures HasIntent(after, db.attempts[m].intent) {
      assert db.attempts[m] in db.attempts;
      var i :| 0 <= i < |db.intents| && db.intents[i].id == db.attempts[m].intent;
      assert after[i] == db.intents[i];
    }
  }

  // ----- What can be done, exactly -----

  const MOVES: set<(State, State)> := {
    (Pending, Claimed), (QueryOnly, Claimed), (Claimed, Claimed), (Claimed, Pending), (Claimed, QueryOnly),
    (Claimed, Resolved), (Pending, Cancelled)}

  /** The row as it stands in the state; a claim takes a token, a resolution a reference. */
  function MovedTo(r: Intent, state: State, token: Id, reference: string): Intent {
    var claimed := state == Claimed;
    r.(state := state, generation := if claimed then r.generation + 1 else r.generation,
       claimToken := if claimed then Some(token) else None, claimAction := if claimed then Some(Submit) else None,
       claimExpires := if claimed then Some(0) else None,
       reference := if state == Resolved then Some(reference) else None,
       resolvedAt := if state in {Resolved, Cancelled} then Some(0) else None)
  }

  lemma MovedRow(r: Intent, t: State, token: Id, reference: string)
    requires IntentChecks(r) && (r.state, t) in MOVES
    ensures var moved := MovedTo(r, t, token, reference);
            && IntentChecks(moved) && Guard(r, moved) && moved.id == r.id && moved.state == t
            && moved.claimToken in {None, Some(token)} && moved.reference in {None, Some(reference)}
  {
  }

  lemma MovedIndexes(rows: seq<Intent>, k: nat, moved: Intent, token: Id, reference: string)
    requires IntentIndexes(rows) && k < |rows| && Guard(rows[k], moved) && moved.id == rows[k].id
    requires moved.claimToken in {None, Some(token)} && moved.reference in {None, Some(reference)}
    requires forall j | 0 <= j < |rows| :: rows[j].claimToken != Some(token) && rows[j].reference != Some(reference)
    ensures IntentIndexes(rows[k := moved])
  {
    var after := rows[k := moved];
    forall i, j | 0 <= i < j < |after| ensures IntentsCompatible(after[i], after[j]) {
      assert IntentsCompatible(rows[i], rows[j]);
    }
  }

  lemma MovedReferences(db: Db, k: nat, moved: Intent)
    requires AttemptsHaveIntents(db) && k < |db.intents| && moved.id == db.intents[k].id
    ensures AttemptsHaveIntents(db.(intents := db.intents[k := moved]))
  {
    var after := db.intents[k := moved];
    forall m | 0 <= m < |db.attempts| ensures HasIntent(after, db.attempts[m].intent) {
      var i :| 0 <= i < |db.intents| && db.intents[i].id == db.attempts[m].intent;
      assert after[i].id == db.intents[i].id;
    }
  }

  lemma MovedFits(db: Db, k: nat, t: State) returns (r: Intent)
    requires Consistent(db) && k < |db.intents| && (db.intents[k].state, t) in MOVES
    ensures r.id == db.intents[k].id && r.state == t && Accepts(db, UpdateIntent(k, r))
  {
    var tokens := set i | i in db.intents && i.claimToken.Some? :: i.claimToken.value;
    var references := set i | i in db.intents && i.reference.Some? :: i.reference.value;
    var token := Orders.Unused(tokens);
    var reference := Orders.UnusedText(references);
    forall j | 0 <= j < |db.intents|
      ensures db.intents[j].claimToken != Some(token) && db.intents[j].reference != Some(reference)
    {
      var i := db.intents[j];
      assert i in db.intents && (i.claimToken.Some? ==> i.claimToken.value in tokens);
      assert i.reference.Some? ==> i.reference.value in references;
    }
    r := MovedTo(db.intents[k], t, token, reference);
    MovedRow(db.intents[k], t, token, reference);
    MovedIndexes(db.intents, k, r, token, reference);
    MovedReferences(db, k, r);
    hide MovedTo, IntentChecks, Guard, IntentIndexes, AttemptsHaveIntents;
  }

  /**
    The state graph, in every consistent database: an intent can be updated exactly along these
    moves, and each one that leads to a claim, and no other, raises the generation, by one.
   */
  lemma MovesExactly(db: Db, k: nat, t: State)
    requires Consistent(db) && k < |db.intents|
    ensures (exists r: Intent :: r.id == db.intents[k].id && r.state == t && Accepts(db, UpdateIntent(k, r)))
       <==> (db.intents[k].state, t) in MOVES
    ensures forall r: Intent | Accepts(db, UpdateIntent(k, r)) ::
              r.generation == db.intents[k].generation + if r.state == Claimed then 1 else 0
  {
    if (db.intents[k].state, t) in MOVES {
      var r := MovedFits(db, k, t);
    }
  }

  lemma {:induction false} RunIsConsistent(db: Db, statements: seq<Statement>)
    requires Consistent(db)
    ensures Consistent(Run(db, statements))
  {
    if statements != [] {
      var n := |statements| - 1;
      RunIsConsistent(db, statements[..n]);
      ConsistentKept(Run(db, statements[..n]), statements[n]);
    }
  }

  /** Which columns are filled follows the state, in every run. */
  lemma ColumnsFollowState(statements: seq<Statement>, k: nat)
    requires k < |Run(EMPTY, statements).intents|
    ensures var r := Run(EMPTY, statements).intents[k];
            && (r.claimToken.Some? <==> r.state == Claimed) && (r.claimAction.Some? <==> r.state == Claimed)
            && (r.claimExpires.Some? <==> r.state == Claimed) && (r.reference.Some? <==> r.state == Resolved)
            && (r.resolvedAt.Some? <==> r.state in {Resolved, Cancelled})
            && r.generation >= 0 && (r.state == Claimed ==> r.generation > 0) && |r.key| == 64 && |r.fingerprint| == 64
  {
    RunIsConsistent(EMPTY, statements);
    assert IntentChecks(Run(EMPTY, statements).intents[k]);
  }

  /** A submission can be requested exactly under an unused id, for a line without one, under an unused key. */
  lemma RequestedExactly(db: Db, id: Id, line: Id, key: string)
    requires Consistent(db)
    ensures (exists r: Intent :: && r.id == id && r.line == line && r.key == key && r.state == Pending
                                 && Accepts(db, InsertIntent(r)))
       <==> |key| == 64 && forall i | i in db.intents :: i.id != id && i.line != line && i.key != key
  {
    var r := Intent(id, line, "", key, "", seq(64, i => '0'), 0, 0, Pending, 0, None, None, None, None, None);
    assert r.id == id && r.line == line && r.key == key;
    if |key| == 64 && forall i | i in db.intents :: i.id != id && i.line != line && i.key != key {
      RequestIndexes(db.intents, r);
      forall k | 0 <= k < |db.intents| ensures IntentsCompatible(db.intents[k], r) {
        assert db.intents[k] in db.intents;
      }
      assert Accepts(db, InsertIntent(r));
    }
    forall q: Intent | q.id == id && q.line == line && q.key == key && Accepts(db, InsertIntent(q))
      ensures |key| == 64 && forall i | i in db.intents :: i.id != id && i.line != line && i.key != key
    {
      RequestIndexes(db.intents, q);
      forall i | i in db.intents ensures i.id != id && i.line != line && i.key != key {
        var k :| 0 <= k < |db.intents| && db.intents[k] == i;
        assert IntentsCompatible(db.intents[k], q);
      }
    }
  }

  lemma HasIntentMeans(rows: seq<Intent>, id: Id)
    ensures HasIntent(rows, id) <==> exists i :: i in rows && i.id == id
  {
    if i :| i in rows && i.id == id {
      var k :| 0 <= k < |rows| && rows[k] == i;
    }
    if HasIntent(rows, id) {
      var k :| 0 <= k < |rows| && rows[k].id == id;
      assert rows[k] in rows;
    }
  }

  lemma FreshAttempt(db: Db, intent: Id, g: int) returns (a: Attempt)
    requires HistoryOk(db) && g > 0 && HasIntent(db.intents, intent)
    requires forall b | b in db.attempts :: !(b.intent == intent && b.generation == g)
    ensures a.intent == intent && a.generation == g && Accepts(db, InsertAttempt(a))
  {
    var ids, tokens := set b | b in db.attempts :: b.id, set b | b in db.attempts :: b.claimToken;
    var id := Orders.Unused(ids);
    var token := Orders.Unused(tokens);
    var text := seq(64, i => '0');
    a := Attempt.Attempt(id, intent, g, token, Submit, text, text);
    AttemptAccepted(db, a);
    forall k | 0 <= k < |db.attempts| ensures AttemptsCompatible(db.attempts[k], a) {
      var b := db.attempts[k];
      assert b in db.attempts && b.id in ids && b.claimToken in tokens;
    }
  }

  /** A generation of an intent can be attempted exactly once. */
  lemma AttemptedExactlyOnce(db: Db, intent: Id, g: int)
    requires HistoryOk(db)
    ensures (exists a: Attempt :: a.intent == intent && a.generation == g && Accepts(db, InsertAttempt(a)))
       <==> && g > 0 && (exists i :: i in db.intents && i.id == intent)
            && forall a | a in db.attempts :: !(a.intent == intent && a.generation == g)
  {
    HasIntentMeans(db.intents, intent);
    if && g > 0 && HasIntent(db.intents, intent)
       && forall a | a in db.attempts :: !(a.intent == intent && a.generation == g)
    {
      var a := FreshAttempt(db, intent, g);
    }
    forall a: Attempt | a.intent == intent && a.generation == g && Accepts(db, InsertAttempt(a))
      ensures g > 0 && HasIntent(db.intents, intent)
      ensures forall b | b in db.attempts :: !(b.intent == intent && b.generation == g)
    {
      AttemptAccepted(db, a);
      forall b | b in db.attempts ensures !(b.intent == intent && b.generation == g) {
        var k :| 0 <= k < |db.attempts| && db.attempts[k] == b;
        assert AttemptsCompatible(db.attempts[k], a);
      }
    }
  }

  /** Two attempts are told apart by their ids, and by their intents and generations. */
  lemma ObservedAttempt(db: Db, a: Attempt, o: Observation)
    requires HistoryOk(db) && a in db.attempts && o in db.observations
    ensures o.attempt == a.id <==> o.intent == a.intent && o.generation == a.generation
    ensures o.attempt == a.id ==> BoundTo(o, a)
  {
    var n :| 0 <= n < |db.observations| && db.observations[n] == o;
    assert Observes(db, db.observations[n]);
    var k :| 0 <= k < |db.attempts| && BoundTo(o, db.attempts[k]);
    var j :| 0 <= j < |db.attempts| && db.attempts[j] == a;
    if j < k { assert AttemptsCompatible(db.attempts[j], db.attempts[k]); }
    if k < j { assert AttemptsCompatible(db.attempts[k], db.attempts[j]); }
  }

  lemma FreshObservation(db: Db, a: Attempt, outcome: Outcome) returns (o: Observation)
    requires HistoryOk(db) && a in db.attempts && forall p | p in db.observations :: p.attempt != a.id
    ensures o.attempt == a.id && o.outcome == outcome && Accepts(db, InsertObservation(o))
  {
    var ids := set p | p in db.observations :: p.id;
    var id := Orders.Unused(ids);
    var evidence := seq(64, i => '0');
    var reference := if outcome in {Submitted, Found} then Some("reference") else None;
    o := Observation.Observation(id, a.id, a.intent, a.generation, a.key, a.fingerprint, outcome, reference, evidence);
    ObservationIndexesGrow(db.observations, o);
    forall k | 0 <= k < |db.observations| ensures ObservationsCompatible(db.observations[k], o) {
      var p := db.observations[k];
      assert p in db.observations && p.id in ids;
      ObservedAttempt(db, a, p);
    }
    var m :| 0 <= m < |db.attempts| && db.attempts[m] == a;
    assert BoundTo(o, db.attempts[m]);
  }

  /** An attempt can be observed exactly once, with any outcome. */
  lemma ObservedExactlyOnce(db: Db, a: Attempt, outcome: Outcome)
    requires HistoryOk(db) && a in db.attempts
    ensures (exists o: Observation :: o.attempt == a.id && o.outcome == outcome && Accepts(db, InsertObservation(o)))
       <==> forall p | p in db.observations :: p.attempt != a.id
  {
    if forall p | p in db.observations :: p.attempt != a.id {
      var o := FreshObservation(db, a, outcome);
    }
    forall o: Observation | o.attempt == a.id && Accepts(db, InsertObservation(o))
      ensures forall p | p in db.observations :: p.attempt != a.id
    {
      ObservationIndexesGrow(db.observations, o);
      forall p | p in db.observations ensures p.attempt != a.id {
        var k :| 0 <= k < |db.observations| && db.observations[k] == p;
        assert ObservationsCompatible(db.observations[k], o);
      }
    }
  }

  /**
    After every run an observation names a reference exactly when it found one, and repeats all of
    its attempt's identity.
   */
  lemma ObservationsSayWhatWasFound(statements: seq<Statement>, o: Observation)
    requires o in Run(EMPTY, statements).observations
    ensures o.reference.Some? <==> o.outcome in {Submitted, Found}
    ensures o.generation > 0 && |o.key| == 64 && |o.fingerprint| == 64 && |o.evidence| == 64
    ensures exists a :: && a in Run(EMPTY, statements).attempts && o.attempt == a.id && o.intent == a.intent
                        && o.generation == a.generation && o.key == a.key && o.fingerprint == a.fingerprint
  {
    RunKeepsHistory(EMPTY, statements);
    var db := Run(EMPTY, statements);
    var k :| 0 <= k < |db.observations| && db.observations[k] == o;
    assert ObservationChecks(db.observations[k]) && Observes(db, db.observations[k]);
    var m :| 0 <= m < |db.attempts| && BoundTo(o, db.attempts[m]);
    assert db.attempts[m] in db.attempts;
  }

  /** After every run no two intents share an id, a line, a key, a claim token or a reference. */
  lemma NothingIsShared(statements: seq<Statement>, j: nat, k: nat)
    requires j < k < |Run(EMPTY, statements).intents|
    ensures var a, b := Run(EMPTY, statements).intents[j], Run(EMPTY, statements).intents[k];
            && a.id != b.id && a.line != b.line && a.key != b.key
            && (a.claimToken.Some? ==> a.claimToken != b.claimToken)
            && (a.reference.Some? ==> a.reference != b.reference)
  {
    RunIsConsistent(EMPTY, statements);
    var db := Run(EMPTY, statements);
    assert IntentsCompatible(db.intents[j], db.intents[k]);
  }

  /** Nor two attempts an id, a claim token or a generation of an intent. */
  lemma AttemptsAreApart(statements: seq<Statement>, j: nat, k: nat)
    requires j < k < |Run(EMPTY, statements).attempts|
    ensures var a, b := Run(EMPTY, statements).attempts[j], Run(EMPTY, statements).attempts[k];
            && a.id != b.id && a.claimToken != b.claimToken
            && !(a.intent == b.intent && a.generation == b.generation)
            && a.generation > 0 && |a.key| == 64 && |a.fingerprint| == 64
  {
    RunIsConsistent(EMPTY, statements);
    var db := Run(EMPTY, statements);
    assert AttemptsCompatible(db.attempts[j], db.attempts[k]) && AttemptChecks(db.attempts[j]);
  }
}
