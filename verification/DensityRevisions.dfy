/**
  alembic/versions/0106_development_baseline.py: revision lineages of traffic density profiles,
  as the single-row statements their triggers, checks and indexes accept.
 */
module DensityRevisions {
  import opened Wrappers
  import Orders

  type Id = nat

  /** `values` stands for the immutable columns that carry the profile's figures. */
  datatype Profile = Profile(
    id: Id, lineage: Id, revision: int, effectiveFrom: int, supersedes: Option<Id>,
    fingerprint: string, values: string, isDefault: bool, active: bool)

  /** The table, in the order its rows were inserted. A row keeps its place when it is updated. */
  type Table = seq<Profile>

  datatype Statement = Insert(profile: Profile) | Update(row: nat, newProfile: Profile) | Delete(gone: nat)

  // ----- Checks, indexes and triggers -----

  predicate Checks(r: Profile) {
    r.revision >= 1 && |r.fingerprint| == 64
  }

  predicate Compatible(a: Profile, b: Profile) {
    && a.id != b.id
    && !(a.lineage == b.lineage && a.revision == b.revision)
    && !(a.supersedes.Some? && a.supersedes == b.supersedes)
    && !(a.isDefault && a.active && b.isDefault && b.active)
  }

  predicate Indexes(rows: Table) {
    forall i, j | 0 <= i < j < |rows| :: Compatible(rows[i], rows[j])
  }

  /** `b` is a valid next revision after `a`. */
  predicate Succeeds(b: Profile, a: Profile) {
    && b.supersedes == Some(a.id) && a.lineage == b.lineage
    && b.revision == a.revision + 1 && b.effectiveFrom > a.effectiveFrom
  }

  /** `validate_traffic_density_profile_revision`, over the rows already there. */
  predicate InsertGuard(rows: Table, r: Profile) {
    if r.revision == 1 then r.supersedes.None? && r.lineage == r.id
    else exists j :: 0 <= j < |rows| && Succeeds(r, rows[j])
  }

  /** `reject_traffic_density_profile_revision_mutation` on an update. */
  predicate UpdateGuard(old': Profile, new': Profile) {
    new' == old'.(isDefault := new'.isDefault, active := new'.active)
  }

  predicate Accepts(rows: Table, s: Statement) {
    match s
    case Insert(r) => InsertGuard(rows, r) && Checks(r) && Indexes(rows + [r])
    case Update(k, r) => k < |rows| && UpdateGuard(rows[k], r) && Checks(r) && Indexes(rows[k := r])
    case Delete(_) => false
  }

  function After(rows: Table, s: Statement): Table {
    if !Accepts(rows, s) then rows
    else
      match s
      case Insert(r) => rows + [r]
      case Update(k, r) => rows[k := r]
      case Delete(_) => rows
  }

  function Run(rows: Table, statements: seq<Statement>): Table {
    if statements == [] then rows
    else After(Run(rows, statements[..|statements| - 1]), statements[|statements| - 1])
  }

  /** The table as the database holds it, changed in place by one statement at a time. */
  class Profiles {
    var rows: Table

    constructor ()
      ensures rows == []
    {
      rows := [];
    }

    /** SELECT ... WHERE id = NEW.supersedes_id. */
    method FindById(id: Id) returns (k: int)
      requires Indexes(rows)
      ensures -1 <= k < |rows|
      ensures k >= 0 ==> rows[k].id == id && forall j | 0 <= j < |rows| && rows[j].id == id :: j == k
      ensures k < 0 ==> forall j | 0 <= j < |rows| :: rows[j].id != id
    {
      for j := 0 to |rows|
        invariant forall i | 0 <= i < j :: rows[i].id != id
      {
        if rows[j].id == id {
          return j;
        }
      }
      return -1;
    }

    /** INSERT INTO traffic_density_profiles: the trigger, then the constraints. */
    method InsertProfile(r: Profile) returns (ok: bool)
      requires Indexes(rows)
      modifies this
      ensures ok <==> Accepts(old(rows), Insert(r))
      ensures rows == After(old(rows), Insert(r)) && Indexes(rows)
    {
      if r.revision == 1 {
        if r.supersedes.Some? || r.lineage != r.id { return false; }
      } else {
        if r.supersedes.None? { return false; }
        var k := FindById(r.supersedes.value);
        if k < 0 || rows[k].lineage != r.lineage || r.revision != rows[k].revision + 1
           || r.effectiveFrom <= rows[k].effectiveFrom { return false; }
        assert Succeeds(r, rows[k]);
      }
      if !Checks(r) || !Indexes(rows + [r]) { return false; }
      rows := rows + [r];
      return true;
    }

    /** UPDATE traffic_density_profiles. */
    method UpdateProfile(k: nat, r: Profile) returns (ok: bool)
      requires Indexes(rows)
      modifies this
      ensures ok <==> Accepts(old(rows), Update(k, r))
      ensures rows == After(old(rows), Update(k, r)) && Indexes(rows)
    {
      if k >= |rows| { return false; }
      var before := rows[k];
      if r.id != before.id || r.lineage != before.lineage || r.revision != before.revision
         || r.effectiveFrom != before.effectiveFrom || r.supersedes != before.supersedes
         || r.fingerprint != before.fingerprint || r.values != before.values { return false; }
      if !Checks(r) || !Indexes(rows[k := r]) { return false; }
      rows := rows[k := r];
      return true;
    }
  }

  // ----- The invariant -----

  /** A first revision begins its lineage; any other succeeds an earlier row. */
  ghost predicate RowOk(rows: Table, k: nat)
    requires k < |rows|
  {
    if rows[k].revision == 1 then rows[k].supersedes.None? && rows[k].lineage == rows[k].id
    else exists j: nat :: j < k && Succeeds(rows[k], rows[j])
  }

  ghost predicate Valid(rows: Table) {
    && Indexes(rows)
    && forall k: nat | k < |rows| :: Checks(rows[k]) && RowOk(rows, k)
  }

  lemma StepKeepsValid(rows: Table, s: Statement)
    requires Valid(rows)
    ensures Valid(After(rows, s))
  {
    var after := After(rows, s);
    forall k: nat | k < |after| ensures Checks(after[k]) && RowOk(after, k) {
      if k < |rows| {
        assert RowOk(rows, k);
        if rows[k].revision != 1 {
          var j: nat :| j < k && Succeeds(rows[k], rows[j]);
          assert Succeeds(after[k], after[j]);
        }
      } else if after[k].revision != 1 {
        var j :| 0 <= j < |rows| && Succeeds(after[k], rows[j]);
        assert Succeeds(after[k], after[j]);
      }
    }
  }

  lemma {:induction false} RunKeepsValid(rows: Table, statements: seq<Statement>)
    requires Valid(rows)
    ensures Valid(Run(rows, statements))
  {
    if statements != [] {
      var n := |statements| - 1;
      RunKeepsValid(rows, statements[..n]);
      StepKeepsValid(Run(rows, statements[..n]), statements[n]);
    }
  }

  // ----- What a valid table means for a lineage -----

  predicate InLineage(rows: Table, lineage: Id, k: int) {
    0 <= k < |rows| && rows[k].lineage == lineage
  }

  lemma RevisionIsUnique(rows: Table, lineage: Id, j: nat, k: nat)
    requires Valid(rows) && InLineage(rows, lineage, j) && InLineage(rows, lineage, k)
        && rows[j].revision == rows[k].revision
    ensures j == k
  {
  }

  /** The row that row `k` succeeds. */
  ghost function Previous(rows: Table, k: nat): (j: nat)
    requires Valid(rows) && k < |rows| && rows[k].revision > 1
    ensures j < k && Succeeds(rows[k], rows[j])
  {
    assert RowOk(rows, k);
    var j: nat :| j < k && Succeeds(rows[k], rows[j]);
    j
  }

  /** Every revision from 1 up to that of a given row is present in its lineage. */
  lemma {:induction false} EarlierRevision(rows: Table, k: nat, r: int) returns (j: nat)
    requires Valid(rows) && k < |rows| && 1 <= r <= rows[k].revision
    ensures InLineage(rows, rows[k].lineage, j) && rows[j].revision == r
  {
    assert Checks(rows[k]);
    if r == rows[k].revision { j := k; } else { j := EarlierRevision(rows, Previous(rows, k), r); }
  }

  /** Later revisions take effect later. */
  lemma {:induction false} EffectiveTimesIncrease(rows: Table, j: nat, k: nat)
    requires Valid(rows) && j < |rows| && k < |rows| && rows[j].lineage == rows[k].lineage
        && rows[j].revision < rows[k].revision
    ensures rows[j].effectiveFrom < rows[k].effectiveFrom
    decreases k
  {
    assert Checks(rows[j]);
    var p := Previous(rows, k);
    if rows[j].revision == rows[p].revision {
      RevisionIsUnique(rows, rows[j].lineage, j, p);
    } else {
      EffectiveTimesIncrease(rows, j, p);
    }
  }

  /** The highest revision among the rows of a lineage, 0 when it has none. */
  function Latest(rows: Table, lineage: Id): (n: int)
    ensures n >= 0 && forall k | 0 <= k < |rows| && rows[k].lineage == lineage :: rows[k].revision <= n
    ensures n > 0 ==> exists k :: 0 <= k < |rows| && rows[k].lineage == lineage && rows[k].revision == n
  {
    if rows == [] then 0
    else
      var m := |rows| - 1;
      var n := Latest(rows[..m], lineage);
      if rows[m].lineage == lineage && rows[m].revision > n then rows[m].revision else n
  }

  /**
    In every run the revisions of a lineage are exactly 1..n, each held by one row, and linked
    as one chain: a row supersedes another exactly when it is the next revision of its lineage.
   */
  lemma LineageIsOneChain(statements: seq<Statement>, lineage: Id, r: int)
    ensures var rows := Run([], statements);
            (exists k :: InLineage(rows, lineage, k) && rows[k].revision == r) <==> 1 <= r <= Latest(rows, lineage)
    ensures var rows := Run([], statements);
            forall j, k | InLineage(rows, lineage, j) && InLineage(rows, lineage, k)
                && rows[j].revision == rows[k].revision :: j == k
    ensures var rows := Run([], statements);
            forall j: nat, k: nat | j < |rows| && k < |rows| ::
              rows[k].supersedes == Some(rows[j].id)
              <==> rows[j].lineage == rows[k].lineage && rows[k].revision == rows[j].revision + 1
  {
    RunKeepsValid([], statements);
    var rows := Run([], statements);
    ValidLineage(rows, lineage, r);
    forall j, k | InLineage(rows, lineage, j) && InLineage(rows, lineage, k) && rows[j].revision == rows[k].revision
      ensures j == k
    {
      RevisionIsUnique(rows, lineage, j, k);
    }
    forall j: nat, k: nat | j < |rows| && k < |rows|
      ensures rows[k].supersedes == Some(rows[j].id)
        <==> rows[j].lineage == rows[k].lineage && rows[k].revision == rows[j].revision + 1
    {
      LinksFollowRevisions(rows, j, k);
    }
  }

  lemma ValidLineage(rows: Table, lineage: Id, r: int)
    requires Valid(rows)
    ensures (exists k :: InLineage(rows, lineage, k) && rows[k].revision == r) <==> 1 <= r <= Latest(rows, lineage)
  {
    if exists k :: InLineage(rows, lineage, k) && rows[k].revision == r {
      var k :| InLineage(rows, lineage, k) && rows[k].revision == r;
      assert Checks(rows[k]);
    }
    if 1 <= r <= Latest(rows, lineage) {
      var k :| 0 <= k < |rows| && rows[k].lineage == lineage && rows[k].revision == Latest(rows, lineage);
      var j := EarlierRevision(rows, k, r);
    }
  }

  lemma SameId(rows: Table, j: nat, k: nat)
    requires Indexes(rows) && j < |rows| && k < |rows| && rows[j].id == rows[k].id
    ensures j == k
  {
  }

  lemma LinksFollowRevisions(rows: Table, j: nat, k: nat)
    requires Valid(rows) && j < |rows| && k < |rows|
    ensures rows[k].supersedes == Some(rows[j].id)
      <==> rows[j].lineage == rows[k].lineage && rows[k].revision == rows[j].revision + 1
  {
    assert Checks(rows[j]) && RowOk(rows, k);
    if rows[k].revision > 1 {
      var p := Previous(rows, k);
      if rows[k].supersedes == Some(rows[j].id) { SameId(rows, j, p); }
      if rows[j].lineage == rows[k].lineage && rows[k].revision == rows[j].revision + 1 {
        RevisionIsUnique(rows, rows[k].lineage, j, p);
      }
    }
  }

  /** Row `k` is the latest revision of the lineage in effect at an instant. */
  ghost predicate Governs(rows: Table, lineage: Id, k: int, instant: int) {
    && InLineage(rows, lineage, k) && rows[k].effectiveFrom <= instant
    && forall j | InLineage(rows, lineage, j) && rows[j].effectiveFrom <= instant ::
        rows[j].effectiveFrom <= rows[k].effectiveFrom
  }

  /**
    In every run, every instant from the first effective time of a lineage on has exactly one
    governing revision, and no earlier instant has any.
   */
  lemma OneGoverningRevision(statements: seq<Statement>, lineage: Id, first: nat, instant: int)
    requires var rows := Run([], statements); InLineage(rows, lineage, first) && rows[first].revision == 1
    ensures var rows := Run([], statements);
            (exists k :: Governs(rows, lineage, k, instant)) <==> rows[first].effectiveFrom <= instant
    ensures var rows := Run([], statements);
            forall j, k | Governs(rows, lineage, j, instant) && Governs(rows, lineage, k, instant) :: j == k
  {
    RunKeepsValid([], statements);
    GovernedFromFirst(Run([], statements), lineage, first, instant);
    GovernorIsUnique(Run([], statements), lineage, instant);
  }

  lemma GovernedFromFirst(rows: Table, lineage: Id, first: nat, instant: int)
    requires Valid(rows) && InLineage(rows, lineage, first) && rows[first].revision == 1
    ensures (exists k :: Governs(rows, lineage, k, instant)) <==> rows[first].effectiveFrom <= instant
  {
    if exists k :: Governs(rows, lineage, k, instant) {
      var k :| Governs(rows, lineage, k, instant);
      assert Checks(rows[k]);
      if rows[k].revision == 1 {
        RevisionIsUnique(rows, lineage, k, first);
      } else {
        EffectiveTimesIncrease(rows, first, k);
      }
    }
    if rows[first].effectiveFrom <= instant {
      var k := Governor(rows, lineage, first, instant, |rows|);
      assert Governs(rows, lineage, k, instant);
    }
  }

  lemma GovernorIsUnique(rows: Table, lineage: Id, instant: int)
    requires Valid(rows)
    ensures forall j, k | Governs(rows, lineage, j, instant) && Governs(rows, lineage, k, instant) :: j == k
  {
    forall j, k | Governs(rows, lineage, j, instant) && Governs(rows, lineage, k, instant) ensures j == k {
      if rows[j].revision < rows[k].revision {
        EffectiveTimesIncrease(rows, j, k);
      } else if rows[k].revision < rows[j].revision {
        EffectiveTimesIncrease(rows, k, j);
      } else {
        RevisionIsUnique(rows, lineage, j, k);
      }
    }
  }

  /** The latest in effect among the first `n` rows, starting from one that is in effect. */
  lemma {:induction false} Governor(rows: Table, lineage: Id, first: nat, instant: int, n: nat) returns (k: nat)
    requires n <= |rows| && InLineage(rows, lineage, first) && rows[first].effectiveFrom <= instant
    ensures InLineage(rows, lineage, k) && rows[first].effectiveFrom <= rows[k].effectiveFrom <= instant
    ensures forall j | j < n && InLineage(rows, lineage, j) && rows[j].effectiveFrom <= instant ::
              rows[j].effectiveFrom <= rows[k].effectiveFrom
  {
    if n == 0 {
      k := first;
    } else {
      k := Governor(rows, lineage, first, instant, n - 1);
      if rows[n - 1].lineage == lineage && rows[k].effectiveFrom < rows[n - 1].effectiveFrom <= instant { k := n - 1; }
    }
  }

  /** A published revision keeps its place and every value for ever. */
  lemma {:induction false} RevisionsForever(rows: Table, statements: seq<Statement>, k: nat)
    requires k < |rows|
    ensures k < |Run(rows, statements)| && UpdateGuard(rows[k], Run(rows, statements)[k])
  {
    if statements != [] {
      var n := |statements| - 1;
      RevisionsForever(rows, statements[..n], k);
    }
  }

  // ----- What can be published, exactly -----

  /** A lineage can be begun exactly under an id that no profile has. */
  lemma BegunExactly(rows: Table, lineage: Id, from: int)
    requires Valid(rows)
    ensures (exists r: Profile :: && r.lineage == lineage && r.revision == 1 && r.effectiveFrom == from
                                  && Accepts(rows, Insert(r)))
       <==> forall k | 0 <= k < |rows| :: rows[k].id != lineage
  {
    var r := Profile(lineage, lineage, 1, from, None, seq(64, i => '0'), "", false, false);
    assert r.lineage == lineage && r.revision == 1 && r.effectiveFrom == from;
    if forall k | 0 <= k < |rows| :: rows[k].id != lineage {
      forall k | 0 <= k < |rows| ensures Compatible(rows[k], r) {
        if rows[k].lineage == lineage {
          var j := EarlierRevision(rows, k, 1);
          assert RowOk(rows, j);
        }
      }
      GrownIndexes(rows, r);
    }
    forall q: Profile | q.lineage == lineage && q.revision == 1 && Accepts(rows, Insert(q))
      ensures forall k | 0 <= k < |rows| :: rows[k].id != lineage
    {
      GrownIndexes(rows, q);
    }
  }

  lemma GrownIndexes(rows: Table, r: Profile)
    requires Indexes(rows)
    ensures Indexes(rows + [r]) <==> forall k | 0 <= k < |rows| :: Compatible(rows[k], r)
  {
    var after := rows + [r];
    assert after[|rows|] == r && forall k | 0 <= k < |rows| :: after[k] == rows[k];
  }

  /**
    A revision can be published exactly as the next one of its lineage: after the latest, and
    taking effect after it.
   */
  lemma PublishedExactly(rows: Table, lineage: Id, revision: int, from: int)
    requires Valid(rows) && revision > 1
    ensures (exists r: Profile :: && r.lineage == lineage && r.revision == revision && r.effectiveFrom == from
                                  && Accepts(rows, Insert(r)))
       <==> && (exists k :: && InLineage(rows, lineage, k) && rows[k].revision == revision - 1
                            && rows[k].effectiveFrom < from)
            && forall k | InLineage(rows, lineage, k) :: rows[k].revision < revision
  {
    if && (exists k :: && InLineage(rows, lineage, k) && rows[k].revision == revision - 1
                       && rows[k].effectiveFrom < from)
       && forall k | InLineage(rows, lineage, k) :: rows[k].revision < revision
    {
      var k :| InLineage(rows, lineage, k) && rows[k].revision == revision - 1 && rows[k].effectiveFrom < from;
      var r := NextRevision(rows, k, from);
    }
    forall r: Profile | && r.lineage == lineage && r.revision == revision && r.effectiveFrom == from
                        && Accepts(rows, Insert(r))
      ensures exists k :: && InLineage(rows, lineage, k) && rows[k].revision == revision - 1
                          && rows[k].effectiveFrom < from
      ensures forall k | InLineage(rows, lineage, k) :: rows[k].revision < revision
    {
      PublishedIsNext(rows, r);
    }
  }

  lemma NextRevision(rows: Table, k: nat, from: int) returns (r: Profile)
    requires Valid(rows) && k < |rows| && rows[k].effectiveFrom < from
    requires forall j | InLineage(rows, rows[k].lineage, j) :: rows[j].revision <= rows[k].revision
    ensures r.lineage == rows[k].lineage && r.revision == rows[k].revision + 1 && r.effectiveFrom == from
    ensures Accepts(rows, Insert(r))
  {
    var ids := set p | p in rows :: p.id;
    var id := Orders.Unused(ids);
    var text := seq(64, i => '0');
    r := Profile(id, rows[k].lineage, rows[k].revision + 1, from, Some(rows[k].id), text, "", false, false);
    assert Succeeds(r, rows[k]) && Checks(rows[k]);
    forall j | 0 <= j < |rows| ensures Compatible(rows[j], r) {
      assert rows[j] in rows && rows[j].id in ids;
      assert InLineage(rows, rows[j].lineage, j);
      LinksFollowRevisions(rows, k, j);
    }
    GrownIndexes(rows, r);
  }

  lemma PublishedIsNext(rows: Table, r: Profile)
    requires Valid(rows) && r.revision > 1 && Accepts(rows, Insert(r))
    ensures exists k :: && InLineage(rows, r.lineage, k) && rows[k].revision == r.revision - 1
                        && rows[k].effectiveFrom < r.effectiveFrom
    ensures forall k | InLineage(rows, r.lineage, k) :: rows[k].revision < r.revision
  {
    GrownIndexes(rows, r);
    var j :| 0 <= j < |rows| && Succeeds(r, rows[j]);
    assert InLineage(rows, r.lineage, j);
    forall k | InLineage(rows, r.lineage, k) ensures rows[k].revision < r.revision {
      if rows[k].revision >= r.revision {
        var same := EarlierRevision(rows, k, r.revision);
      }
    }
  }

  /** After every run at most one profile is the active default. */
  lemma OneActiveDefault(statements: seq<Statement>, j: nat, k: nat)
    requires j < |Run([], statements)| && k < |Run([], statements)|
    requires var rows := Run([], statements);
             rows[j].isDefault && rows[j].active && rows[k].isDefault && rows[k].active
    ensures j == k
  {
    RunKeepsValid([], statements);
  }

  /** A profile can be made the active default exactly while no other is, and can always be put out of use. */
  lemma DefaultExactly(rows: Table, k: nat)
    requires Valid(rows) && k < |rows|
    ensures (exists r: Profile :: r.isDefault && r.active && Accepts(rows, Update(k, r)))
       <==> forall j | 0 <= j < |rows| && j != k :: !(rows[j].isDefault && rows[j].active)
    ensures exists r: Profile :: !r.active && Accepts(rows, Update(k, r))
  {
    FlagsFit(rows, k, false, false);
    if forall j | 0 <= j < |rows| && j != k :: !(rows[j].isDefault && rows[j].active) { FlagsFit(rows, k, true, true); }
    forall r: Profile | r.isDefault && r.active && Accepts(rows, Update(k, r))
      ensures forall j | 0 <= j < |rows| && j != k :: !(rows[j].isDefault && rows[j].active)
    {
      var after := rows[k := r];
      forall j | 0 <= j < |rows| && j != k ensures !(rows[j].isDefault && rows[j].active) {
        if j < k { assert Compatible(after[j], after[k]); } else { assert Compatible(after[k], after[j]); }
      }
    }
  }

  lemma FlagsFit(rows: Table, k: nat, isDefault: bool, active: bool)
    requires Valid(rows) && k < |rows|
    requires isDefault && active ==> forall j | 0 <= j < |rows| && j != k :: !(rows[j].isDefault && rows[j].active)
    ensures Accepts(rows, Update(k, rows[k].(isDefault := isDefault, active := active)))
  {
    var after := rows[k := rows[k].(isDefault := isDefault, active := active)];
    assert Checks(rows[k]);
    forall i, j | 0 <= i < j < |after| ensures Compatible(after[i], after[j]) {
      assert Compatible(rows[i], rows[j]);
    }
  }
}
