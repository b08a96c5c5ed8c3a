/** scripts/release_contract.py: the staged release state kept in a state file. */
module ReleaseState {
  import opened Wrappers

  const STAGE_ORDER := ["preflight", "backup", "migration", "compatibility", "traffic"]

  /** What never changes about a release. */
  datatype Identity = Identity(
    releaseId: string, revision: string, backendImage: string, frontendImage: string,
    configSha: string, previousReleaseId: Option<string>)

  datatype Event = Event(stage: string, outcome: string, recordedAt: string)

  datatype State = State(schemaVersion: int, identity: Identity, stages: seq<string>, events: seq<Event>)

  datatype Command =
    | Init(identity: Identity)
    | Advance(releaseId: string, stage: string, outcome: string, at: string)

  predicate IsPrefixOfOrder(stages: seq<string>) {
    |stages| <= |STAGE_ORDER| && stages == STAGE_ORDER[..|stages|]
  }

  /** `validate_release_state`; `wellFormed` is the format of the identity fields. */
  predicate ValidState(s: State, wellFormed: Identity -> bool) {
    s.schemaVersion == 1 && wellFormed(s.identity) && IsPrefixOfOrder(s.stages)
  }

  function StageIndex(stage: string): (r: Option<nat>)
    ensures r.Some? ==> r.value < |STAGE_ORDER| && STAGE_ORDER[r.value] == stage
    ensures r.None? <==> stage !in STAGE_ORDER
  {
    if stage == "preflight" then Some(0)
    else if stage == "backup" then Some(1)
    else if stage == "migration" then Some(2)
    else if stage == "compatibility" then Some(3)
    else if stage == "traffic" then Some(4)
    else
      assert stage !in STAGE_ORDER by {
        assert STAGE_ORDER == ["preflight", "backup", "migration", "compatibility", "traffic"];
      }
      None
  }

  /** The stages of the events, in order. */
  function StagesOf(events: seq<Event>): (r: seq<string>)
    ensures |r| == |events| && forall i | 0 <= i < |r| :: r[i] == events[i].stage
  {
    seq(|events|, i requires 0 <= i < |events| => events[i].stage)
  }

  /** The command succeeds on what the state file holds. */
  predicate Accepts(file: Option<State>, c: Command, wellFormed: Identity -> bool) {
    match c
    case Init(identity) =>
      && wellFormed(identity)
      && (file.Some? ==> ValidState(file.value, wellFormed) && file.value.identity == identity)
    case Advance(releaseId, stage, _, _) =>
      && file.Some? && ValidState(file.value, wellFormed) && file.value.identity.releaseId == releaseId
      && (stage in file.value.stages || StageIndex(stage) == Some(|file.value.stages|))
  }

  /** What the state file holds afterwards. A failed command, and a retry, leave it alone. */
  function After(file: Option<State>, c: Command, wellFormed: Identity -> bool): Option<State> {
    if !Accepts(file, c, wellFormed) then file
    else
      match c
      case Init(identity) => if file.Some? then file else Some(State(1, identity, [], []))
      case Advance(_, stage, outcome, at) =>
        if stage in file.value.stages then file
        else Some(file.value.(stages := file.value.stages + [stage],
                              events := file.value.events + [Event(stage, outcome, at)]))
  }

  function Run(file: Option<State>, commands: seq<Command>, wellFormed: Identity -> bool): Option<State> {
    if commands == [] then file
    else After(Run(file, commands[..|commands| - 1], wellFormed), commands[|commands| - 1], wellFormed)
  }

  /** The state file, which the commands read and rewrite. */
  class StateFile {
    var content: Option<State>

    constructor ()
      ensures content == None
    {
      content := None;
    }

    /** `_cli_state_init`. */
    method Initialise(identity: Identity, wellFormed: Identity -> bool) returns (r: Result<State>)
      modifies this
      ensures r.Ok? <==> Accepts(old(content), Init(identity), wellFormed)
      ensures content == After(old(content), Init(identity), wellFormed)
      ensures r.Ok? ==> content == Some(r.value)
    {
      var state := State(1, identity, [], []);
      if !ValidState(state, wellFormed) { return Err("Release state is invalid"); }
      if content.Some? {
        var existing := content.value;
        if !ValidState(existing, wellFormed) { return Err("Release state is invalid"); }
        if existing.identity.releaseId != state.identity.releaseId { return Err("conflicts on release_id"); }
        if existing.identity.revision != state.identity.revision { return Err("conflicts on revision"); }
        if existing.identity.backendImage != state.identity.backendImage { return Err("conflicts on backend_image"); }
        if existing.identity.frontendImage != state.identity.frontendImage {
          return Err("conflicts on frontend_image");
        }
        if existing.identity.configSha != state.identity.configSha { return Err("conflicts on config_sha256"); }
        if existing.identity.previousReleaseId != state.identity.previousReleaseId {
          return Err("conflicts on previous_release_id");
        }
        state := existing;
      } else {
        content := Some(state);
      }
      return Ok(state);
    }

    /** `_cli_state_advance`. */
    method Record(releaseId: string, stage: string, outcome: string, at: string, wellFormed: Identity -> bool)
      returns (r: Result<State>)
      modifies this
      ensures r.Ok? <==> Accepts(old(content), Advance(releaseId, stage, outcome, at), wellFormed)
      ensures content == After(old(content), Advance(releaseId, stage, outcome, at), wellFormed)
      ensures r.Ok? ==> content == Some(r.value)
    {
      if content.None? || !ValidState(content.value, wellFormed) { return Err("Release state is invalid"); }
      var state := content.value;
      if state.identity.releaseId != releaseId { return Err("Release ID does not own this state file"); }
      var index := StageIndex(stage);
      if stage in state.stages { return Ok(state); }
      if index.None? || |state.stages| != index.value { return Err("Release stage cannot skip or reorder"); }
      state := state.(stages := state.stages + [stage], events := state.events + [Event(stage, outcome, at)]);
      content := Some(state);
      return Ok(state);
    }
  }

  // ----- What every reachable state satisfies -----

  predicate Recorded(file: Option<State>, wellFormed: Identity -> bool) {
    file.Some? ==> ValidState(file.value, wellFormed) && StagesOf(file.value.events) == file.value.stages
  }

  lemma StepKeepsRecord(file: Option<State>, c: Command, wellFormed: Identity -> bool)
    requires Recorded(file, wellFormed)
    ensures Recorded(After(file, c, wellFormed), wellFormed)
    ensures file.Some? ==> && After(file, c, wellFormed).Some?
                           && After(file, c, wellFormed).value.identity == file.value.identity
                           && file.value.events <= After(file, c, wellFormed).value.events
  {
    if Accepts(file, c, wellFormed) && c.Advance? && c.stage !in file.value.stages {
      var n := |file.value.stages|;
      assert STAGE_ORDER[..n] + [STAGE_ORDER[n]] == STAGE_ORDER[..n + 1];
    }
  }

  /**
    After every run of init and advance from an absent file: the stages are a prefix of the
    stage order, and the events record exactly those stages in that order.
   */
  lemma {:induction false} ReachableStatesAreOrdered(commands: seq<Command>, wellFormed: Identity -> bool)
    ensures Recorded(Run(None, commands, wellFormed), wellFormed)
  {
    if commands != [] {
      var n := |commands| - 1;
      ReachableStatesAreOrdered(commands[..n], wellFormed);
      StepKeepsRecord(Run(None, commands[..n], wellFormed), commands[n], wellFormed);
    }
  }

  /** Identities never change, and an event once recorded keeps its place and outcome under any retry. */
  lemma {:induction false} OutcomesAreWrittenOnce(
      file: Option<State>, commands: seq<Command>, wellFormed: Identity -> bool)
    requires file.Some? && Recorded(file, wellFormed)
    ensures Run(file, commands, wellFormed).Some? && Recorded(Run(file, commands, wellFormed), wellFormed)
    ensures Run(file, commands, wellFormed).value.identity == file.value.identity
    ensures file.value.events <= Run(file, commands, wellFormed).value.events
  {
    if commands != [] {
      var n := |commands| - 1;
      OutcomesAreWrittenOnce(file, commands[..n], wellFormed);
      StepKeepsRecord(Run(file, commands[..n], wellFormed), commands[n], wellFormed);
    }
  }

  /** The outcomes recorded for a stage. */
  function Outcomes(events: seq<Event>, stage: string): seq<string> {
    if events == [] then []
    else (if events[0].stage == stage then [events[0].outcome] else []) + Outcomes(events[1..], stage)
  }

  lemma {:induction false} NoOutcomes(events: seq<Event>, stage: string)
    requires forall e | e in events :: e.stage != stage
    ensures Outcomes(events, stage) == []
  {
    if events != [] { NoOutcomes(events[1..], stage); }
  }

  lemma {:induction false} OutcomesSplit(a: seq<Event>, b: seq<Event>, stage: string)
    ensures Outcomes(a + b, stage) == Outcomes(a, stage) + Outcomes(b, stage)
  {
    if a == [] {
      assert a + b == b;
    } else {
      assert (a + b)[1..] == a[1..] + b;
      OutcomesSplit(a[1..], b, stage);
    }
  }

  /**
    In a reachable state the compatibility outcome is recorded at most once, and only after
    migration was: so the recovery authority's migration check never refuses such a state.
   */
  lemma CompatibilityImpliesMigration(s: State, wellFormed: Identity -> bool)
    requires Recorded(Some(s), wellFormed)
    ensures |Outcomes(s.events, "compatibility")| <= 1
    ensures |Outcomes(s.events, "compatibility")| == 1 <==> |s.stages| > 3
    ensures |Outcomes(s.events, "compatibility")| == 1 ==>
              "migration" in s.stages && Outcomes(s.events, "compatibility") == [s.events[3].outcome]
  {
    var n := |s.stages|;
    forall i | 0 <= i < n ensures s.events[i].stage == STAGE_ORDER[i] {
      assert StagesOf(s.events)[i] == s.stages[i];
    }
    if n <= 3 {
      NoOutcomes(s.events, "compatibility");
    } else {
      assert s.events == s.events[..3] + ([s.events[3]] + s.events[4..]);
      OutcomesSplit(s.events[..3], [s.events[3]] + s.events[4..], "compatibility");
      OutcomesSplit([s.events[3]], s.events[4..], "compatibility");
      NoOutcomes(s.events[..3], "compatibility");
      NoOutcomes(s.events[4..], "compatibility");
      assert Outcomes([s.events[3]], "compatibility") == [s.events[3].outcome] by { assert [s.events[3]][1..] == []; }
      assert s.stages[2] == "migration";
    }
  }

  // ----- What is recorded, and that everything can be -----

  /** Each recorded event carries the outcome and the time of the one advance that made it, the first for its stage. */
  lemma {:induction false} EventsComeFromCommands(commands: seq<Command>, wellFormed: Identity -> bool, k: nat)
    returns (n: nat)
    requires Run(None, commands, wellFormed).Some? && k < |Run(None, commands, wellFormed).value.events|
    ensures n < |commands|
    ensures var state := Run(None, commands, wellFormed).value; var e := state.events[k];
            commands[n] == Advance(state.identity.releaseId, e.stage, e.outcome, e.recordedAt)
    ensures Run(None, commands[..n], wellFormed).Some? && |Run(None, commands[..n], wellFormed).value.events| == k
  {
    var m := |commands| - 1;
    var earlier := Run(None, commands[..m], wellFormed);
    if earlier.Some? && k < |earlier.value.events| {
      n := EventsComeFromCommands(commands[..m], wellFormed, k);
      ReachableStatesAreOrdered(commands[..m], wellFormed);
      StepKeepsRecord(earlier, commands[m], wellFormed);
      assert commands[..m][..n] == commands[..n];
    } else {
      n := m;
    }
  }

  /**
    In a reachable state an advance of the release succeeds exactly for a stage not beyond the next
    one; the next one is recorded as given, and an earlier one leaves the state as it was.
   */
  lemma AdvanceExactly(s: State, i: nat, outcome: string, at: string, wellFormed: Identity -> bool)
    requires Recorded(Some(s), wellFormed) && i < 5
    ensures var c := Advance(s.identity.releaseId, STAGE_ORDER[i], outcome, at);
            && (Accepts(Some(s), c, wellFormed) <==> i <= |s.stages|)
            && (i < |s.stages| ==> After(Some(s), c, wellFormed) == Some(s))
            && (i == |s.stages| ==>
                  After(Some(s), c, wellFormed)
                  == Some(State(1, s.identity, STAGE_ORDER[..i + 1], s.events + [Event(STAGE_ORDER[i], outcome, at)])))
    ensures forall other | other != s.identity.releaseId ::
              !Accepts(Some(s), Advance(other, STAGE_ORDER[i], outcome, at), wellFormed)
  {
    assert STAGE_ORDER[..i] + [STAGE_ORDER[i]] == STAGE_ORDER[..i + 1];
    if i < |s.stages| { assert s.stages[i] == STAGE_ORDER[i]; }
    assert s.stages == STAGE_ORDER[..|s.stages|];
  }

  /** Initialise, then advance through the first `n` stages with the given outcomes. */
  function Script(identity: Identity, outcomes: seq<string>, n: nat): (r: seq<Command>)
    requires n <= |outcomes| && n <= 5
    ensures |r| == n + 1
  {
    if n == 0 then [Init(identity)]
    else Script(identity, outcomes, n - 1) + [Advance(identity.releaseId, STAGE_ORDER[n - 1], outcomes[n - 1], "")]
  }

  /**
    Every release with a well-formed identity can be carried through, and each stage records the
    outcome it was given.
   */
  lemma {:induction false} ReleaseCanFinish(
      identity: Identity, outcomes: seq<string>, n: nat, wellFormed: Identity -> bool)
    requires wellFormed(identity) && n <= |outcomes| && n <= 5
    ensures var file := Run(None, Script(identity, outcomes, n), wellFormed);
            && file.Some? && file.value.identity == identity && file.value.stages == STAGE_ORDER[..n]
            && |file.value.events| == n
            && forall k | 0 <= k < n ::
                 file.value.events[k].stage == STAGE_ORDER[k] && file.value.events[k].outcome == outcomes[k]
  {
    var script := Script(identity, outcomes, n);
    if n == 0 {
      assert script[..0] == [] && STAGE_ORDER[..0] == [];
    } else {
      ReleaseCanFinish(identity, outcomes, n - 1, wellFormed);
      assert script[..n] == Script(identity, outcomes, n - 1);
      ReachableStatesAreOrdered(Script(identity, outcomes, n - 1), wellFormed);
      AdvanceExactly(Run(None, script[..n], wellFormed).value, n - 1, outcomes[n - 1], "", wellFormed);
    }
  }
}
