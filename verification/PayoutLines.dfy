/**
  alembic/versions/0106_development_baseline.py: payout batch lines and their retry chains, as
  the single-row statements the guard, checks, unique indexes and foreign key accept.
 */
module PayoutLines {
  import opened Wrappers
  import Orders

  type Id = nat

  datatype Status = Reserved | Submitted | Succeeded | Failed | Void

  datatype Line = Line(
    id: Id, batch: Id, ledgerEntry: Id, predecessor: Option<Id>, payeeVersion: Id, bankVersion: Id,
    amount: int, currency: string, instruction: string, fingerprint: string, key: string, createdAt: int,
    status: Status, active: bool, reference: Option<string>)

  /** The table, in the order its rows were inserted. A row keeps its place when it is updated. */
  type Table = seq<Line>

  datatype Statement = Insert(line: Line) | Update(row: nat, newLine: Line) | Delete(gone: nat)

  // ----- Checks, indexes and the guard -----

  predicate Checks(r: Line) {
    && r.active == (r.status in {Reserved, Submitted})
    && r.amount > 0 && |r.currency| == 3 && |r.fingerprint| == 64
    && r.predecessor != Some(r.id)
    && r.reference.Some? == (r.status in {Submitted, Succeeded, Failed})
  }

  /** Two rows that the primary key and the unique indexes let stand together. */
  predicate Compatible(a: Line, b: Line) {
    && a.id != b.id && a.key != b.key
    && !(a.ledgerEntry == b.ledgerEntry && a.active && b.active)
    && (a.predecessor.Some? ==> a.predecessor != b.predecessor)
    && (a.reference.Some? ==> a.reference != b.reference)
  }

  predicate Indexes(rows: Table) {
    forall i, j | 0 <= i < j < |rows| :: Compatible(rows[i], rows[j])
  }

  predicate HasId(rows: Table, id: Id) {
    exists j :: 0 <= j < |rows| && rows[j].id == id
  }

  predicate ForeignKey(rows: Table) {
    forall k | 0 <= k < |rows| && rows[k].predecessor.Some? :: HasId(rows, rows[k].predecessor.value)
  }

  predicate TransitionOk(old': Status, new': Status) {
    || old' == new'
    || (old' == Reserved && new' in {Submitted, Void})
    || (old' == Submitted && new' in {Succeeded, Failed})
    || (old' == Failed && new' == Succeeded)
  }

  /** `guard_payout_batch_line_mutation`. It does not look at the id. */
  predicate Guard(old': Line, new': Line) {
    && new' == old'.(id := new'.id, status := new'.status, active := new'.active, reference := new'.reference)
    && TransitionOk(old'.status, new'.status)
    && (old'.reference != new'.reference ==>
          old'.reference.None? && new'.reference.Some? && old'.status == Reserved && new'.status == Submitted)
    && (old'.active != new'.active ==> old'.active && !new'.active && new'.status in {Succeeded, Failed, Void})
  }

  predicate Accepts(rows: Table, s: Statement) {
    match s
    case Insert(r) => Checks(r) && Indexes(rows + [r]) && ForeignKey(rows + [r])
    case Update(k, r) => k < |rows| && Guard(rows[k], r) && Checks(r) && Indexes(rows[k := r])
        && ForeignKey(rows[k := r])
    case Delete(_) => false
  }

  function After(rows: Table, s: Statement): Table {
    if !Accepts(rows, s) then rows
    else
      match s
      case Insert(r) => rows + [r]
      case Update(k, r) => rows[k := r]
      case Delete(_) => rows
  }

  function Run(rows: Table, statements: seq<Statement>): Table {
    if statements == [] then rows
    else After(Run(rows, statements[..|statements| - 1]), statements[|statements| - 1])
  }

  // ----- The invariant -----

  /** Row `j` is the predecessor of row `k`. */
  predicate IsParent(rows: Table, j: nat, k: nat) {
    j < |rows| && k < |rows| && rows[k].predecessor == Some(rows[j].id)
  }

  ghost predicate Valid(rows: Table) {
    && (forall k | 0 <= k < |rows| :: Checks(rows[k]))
    && Indexes(rows)
    && forall k: nat | k < |rows| && rows[k].predecessor.Some? :: exists j: nat :: j < k && IsParent(rows, j, k)
  }

  lemma SameId(rows: Table, i: nat, j: nat)
    requires Indexes(rows) && i < |rows| && j < |rows| && rows[i].id == rows[j].id
    ensures i == j
  {
  }

  lemma InsertKeepsValid(rows: Table, r: Line)
    requires Valid(rows) && Accepts(rows, Insert(r))
    ensures Valid(rows + [r])
  {
    var after := rows + [r];
    forall k: nat | k < |after| && after[k].predecessor.Some? ensures exists j: nat :: j < k && IsParent(after, j, k) {
      if k < |rows| {
        var j: nat :| j < k && IsParent(rows, j, k);
        assert IsParent(after, j, k);
      } else {
        assert HasId(after, r.predecessor.value);
        var j: nat :| j < |after| && after[j].id == r.predecessor.value;
        assert j < k && IsParent(after, j, k);
      }
    }
  }

  /** An accepted update leaves every predecessor where it was; a row others point at keeps its id. */
  lemma UpdateKeepsParents(rows: Table, k: nat, r: Line, i: nat, j: nat)
    requires Valid(rows) && Accepts(rows, Update(k, r)) && i < |rows| && j < |rows|
    ensures IsParent(rows[k := r], i, j) <==> IsParent(rows, i, j)
  {
    var after := rows[k := r];
    if i == k && r.id != rows[k].id {
      if IsParent(rows, i, j) {
        assert after[j].predecessor == Some(rows[k].id);
        assert HasId(after, rows[k].id);
        var m: nat :| m < |after| && after[m].id == rows[k].id;
        SameId(rows, m, k);
        assert false;
      }
      if IsParent(after, i, j) {
        assert rows[j].predecessor == Some(r.id);
        var m: nat :| m < j && IsParent(rows, m, j);
        if m != k { SameId(after, m, k); }
      }
    }
  }

  lemma UpdateKeepsValid(rows: Table, k: nat, r: Line)
    requires Valid(rows) && Accepts(rows, Update(k, r))
    ensures Valid(rows[k := r])
  {
    var after := rows[k := r];
    forall m: nat | m < |after| && after[m].predecessor.Some? ensures exists j: nat :: j < m && IsParent(after, j, m) {
      var j: nat :| j < m && IsParent(rows, j, m);
      UpdateKeepsParents(rows, k, r, j, m);
    }
  }

  /** The foreign keys of other tables: every id they refer to is the id of a line. */
  ghost predicate ReferencesHold(rows: Table, referenced: set<Id>) {
    forall id | id in referenced :: HasId(rows, id)
  }

  /**
    The id of a line may be updated exactly while no line is its retry and no row of another
    table refers to it.
   */
  lemma RenamedExactlyWhileUnreferenced(rows: Table, k: nat, referenced: set<Id>)
    requires Valid(rows) && ReferencesHold(rows, referenced) && k < |rows|
    ensures (exists r: Line ::
               r.id != rows[k].id && Accepts(rows, Update(k, r)) && ReferencesHold(rows[k := r], referenced))
       <==> (forall m: nat :: !IsParent(rows, k, m)) && rows[k].id !in referenced
  {
    if (forall m: nat :: !IsParent(rows, k, m)) && rows[k].id !in referenced {
      var ids := set r | r in rows :: r.id;
      var unused := Orders.Unused(ids);
      assert forall r | r in rows :: r.id in ids;
      RenameAccepted(rows, k, unused);
      var r := rows[k].(id := unused);
      forall id | id in referenced ensures HasId(rows[k := r], id) {
        var j :| 0 <= j < |rows| && rows[j].id == id;
        assert rows[k := r][j].id == id;
      }
      assert ReferencesHold(rows[k := r], referenced);
    }
    forall r: Line | r.id != rows[k].id && Accepts(rows, Update(k, r)) && ReferencesHold(rows[k := r], referenced)
      ensures (forall m: nat :: !IsParent(rows, k, m)) && rows[k].id !in referenced
    {
      RenamedIsUnreferenced(rows, k, r, referenced);
    }
  }

  lemma RenamedIsUnreferenced(rows: Table, k: nat, r: Line, referenced: set<Id>)
    requires Valid(rows) && k < |rows| && r.id != rows[k].id
    requires Accepts(rows, Update(k, r)) && ReferencesHold(rows[k := r], referenced)
    ensures (forall m: nat :: !IsParent(rows, k, m)) && rows[k].id !in referenced
  {
    forall m: nat ensures !IsParent(rows, k, m) {
      if m < |rows| { UpdateKeepsParents(rows, k, r, k, m); }
    }
    if HasId(rows[k := r], rows[k].id) {
      var j: nat :| j < |rows| && rows[k := r][j].id == rows[k].id;
      SameId(rows, j, k);
    }
  }

  lemma RenameAccepted(rows: Table, k: nat, unused: Id)
    requires Valid(rows) && k < |rows| && (forall m: nat :: !IsParent(rows, k, m))
    requires forall r | r in rows :: r.id < unused
    ensures Accepts(rows, Update(k, rows[k].(id := unused)))
  {
    var row := rows[k].(id := unused);
    var after := rows[k := row];
    forall i, j | 0 <= i < j < |after| ensures Compatible(after[i], after[j]) {
      assert Compatible(rows[i], rows[j]);
      assert rows[i] in rows && rows[j] in rows;
    }
    forall m: nat | m < |after| && after[m].predecessor.Some? ensures HasId(after, after[m].predecessor.value) {
      var j: nat :| j < m && IsParent(rows, j, m);
      assert after[j] == rows[j];
    }
    if row.predecessor.Some? {
      var j: nat :| j < k && IsParent(rows, j, k);
      assert rows[j] in rows;
    }
  }

  lemma StepKeepsValid(rows: Table, s: Statement)
    requires Valid(rows)
    ensures Valid(After(rows, s))
  {
    if Accepts(rows, s) {
      match s
      case Insert(r) => InsertKeepsValid(rows, r);
      case Update(k, r) => UpdateKeepsValid(rows, k, r);
      case Delete(_) =>
    }
  }

  lemma {:induction false} RunKeepsValid(rows: Table, statements: seq<Statement>)
    requires Valid(rows)
    ensures Valid(Run(rows, statements)) && |rows| <= |Run(rows, statements)|
  {
    if statements != [] {
      var n := |statements| - 1;
      RunKeepsValid(rows, statements[..n]);
      StepKeepsValid(Run(rows, statements[..n]), statements[n]);
    }
  }

  // ----- The table in place -----

  /** The table as the database holds it, changed in place by one statement at a time. */
  class Lines {
    var rows: Table

    constructor ()
      ensures rows == [] && Valid(rows)
    {
      rows := [];
    }

    /** The unique indexes are searched for every row but the one at `k`. */
    method FitsBesideOthers(line: Line, k: nat) returns (ok: bool)
      ensures ok <==> forall j | 0 <= j < |rows| && j != k :: Compatible(rows[j], line) && Compatible(line, rows[j])
    {
      for j := 0 to |rows|
        invariant forall i | 0 <= i < j && i != k :: Compatible(rows[i], line) && Compatible(line, rows[i])
      {
        if j != k && !(Compatible(rows[j], line) && Compatible(line, rows[j])) { return false; }
      }
      return true;
    }

    /** INSERT INTO payout_batch_lines. */
    method InsertLine(line: Line) returns (ok: bool)
      requires Valid(rows)
      modifies this
      ensures ok <==> Accepts(old(rows), Insert(line))
      ensures rows == After(old(rows), Insert(line)) && Valid(rows)
    {
      if !Checks(line) { return false; }
      var fits := FitsBesideOthers(line, |rows|);
      InsertIndexes(rows, line);
      if !fits || !ForeignKey(rows + [line]) { return false; }
      InsertKeepsValid(rows, line);
      rows := rows + [line];
      return true;
    }

    /** UPDATE payout_batch_lines: the guard, then the constraints. */
    method UpdateLine(k: nat, line: Line) returns (ok: bool)
      requires Valid(rows)
      modifies this
      ensures ok <==> Accepts(old(rows), Update(k, line))
      ensures rows == After(old(rows), Update(k, line)) && Valid(rows)
    {
      if k >= |rows| { return false; }
      var before := rows[k];
      if line.(id := before.id, status := before.status, active := before.active, reference := before.reference)
         != before
      {
        return false;
      }
      if !TransitionOk(before.status, line.status) { return false; }
      if before.reference != line.reference
         && !(before.reference.None? && line.reference.Some? && before.status == Reserved && line.status == Submitted)
      {
        return false;
      }
      if before.active != line.active
         && !(before.active && !line.active && line.status in {Succeeded, Failed, Void})
      {
        return false;
      }
      if !Checks(line) { return false; }
      var fits := FitsBesideOthers(line, k);
      UpdateIndexes(rows, k, line);
      if !fits || !ForeignKey(rows[k := line]) { return false; }
      UpdateKeepsValid(rows, k, line);
      rows := rows[k := line];
      return true;
    }
  }

  lemma CompatibleSymmetric(a: Line, b: Line)
    ensures Compatible(a, b) <==> Compatible(b, a)
  {
  }

  lemma InsertIndexes(rows: Table, line: Line)
    requires Indexes(rows)
    ensures Indexes(rows + [line])
       <==> forall j | 0 <= j < |rows| && j != |rows| :: Compatible(rows[j], line) && Compatible(line, rows[j])
  {
    var after := rows + [line];
    if Indexes(after) {
      forall j | 0 <= j < |rows| ensures Compatible(rows[j], line) && Compatible(line, rows[j]) {
        assert Compatible(after[j], after[|rows|]);
        CompatibleSymmetric(rows[j], line);
      }
    }
  }

  lemma UpdateIndexes(rows: Table, k: nat, line: Line)
    requires Indexes(rows) && k < |rows|
    ensures Indexes(rows[k := line])
       <==> forall j | 0 <= j < |rows| && j != k :: Compatible(rows[j], line) && Compatible(line, rows[j])
  {
    var after := rows[k := line];
    if Indexes(after) {
      forall j | 0 <= j < |rows| && j != k ensures Compatible(rows[j], line) && Compatible(line, rows[j]) {
        if j < k { assert Compatible(after[j], after[k]); } else { assert Compatible(after[k], after[j]); }
        CompatibleSymmetric(rows[j], line);
      }
    }
  }

  // ----- Chains -----

  ghost function Parent(rows: Table, k: nat): (j: nat)
    requires Valid(rows) && k < |rows| && rows[k].predecessor.Some?
    ensures j < k && IsParent(rows, j, k)
  {
    var j: nat :| j < k && IsParent(rows, j, k);
    j
  }

  /** The line a retry chain started with. */
  ghost function Root(rows: Table, k: nat): (r: nat)
    requires Valid(rows) && k < |rows|
    ensures r <= k && rows[r].predecessor.None?
  {
    if rows[k].predecessor.None? then k else Root(rows, Parent(rows, k))
  }

  /** Row `j` is row `k`, or a predecessor of row `k` at some distance. */
  ghost predicate Reaches(rows: Table, j: nat, k: nat)
    requires Valid(rows) && j < |rows| && k < |rows|
    decreases k
  {
    j == k || (rows[k].predecessor.Some? && Reaches(rows, j, Parent(rows, k)))
  }

  lemma ParentUnique(rows: Table, j: nat, k: nat)
    requires Valid(rows) && IsParent(rows, j, k)
    ensures Parent(rows, k) == j
  {
    SameId(rows, j, Parent(rows, k));
  }

  /** A line is retried at most once. */
  lemma ChildUnique(rows: Table, j: nat, k: nat, m: nat)
    requires Valid(rows) && IsParent(rows, j, k) && IsParent(rows, j, m)
    ensures k == m
  {
  }

  lemma {:induction false} RootReaches(rows: Table, k: nat)
    requires Valid(rows) && k < |rows|
    ensures Reaches(rows, Root(rows, k), k)
  {
    if rows[k].predecessor.Some? { RootReaches(rows, Parent(rows, k)); }
  }

  lemma {:induction false} ReachesSharesRoot(rows: Table, j: nat, k: nat)
    requires Valid(rows) && j < |rows| && k < |rows| && Reaches(rows, j, k)
    ensures j <= k && Root(rows, j) == Root(rows, k)
    decreases k
  {
    if j != k { ReachesSharesRoot(rows, j, Parent(rows, k)); }
  }

  /** On the way from `j` down to a later row `k` lies the one retry of `j`. */
  lemma {:induction false} RetryOnPath(rows: Table, j: nat, k: nat, retry: nat)
    requires Valid(rows) && j < |rows| && k < |rows| && Reaches(rows, j, k) && j != k && IsParent(rows, j, retry)
    ensures Reaches(rows, retry, k)
    decreases k
  {
    if Parent(rows, k) == j {
      ChildUnique(rows, j, k, retry);
    } else {
      RetryOnPath(rows, j, Parent(rows, k), retry);
    }
  }

  lemma {:induction false} SameRootReaches(rows: Table, j: nat, k: nat)
    requires Valid(rows) && j <= k < |rows| && Root(rows, j) == Root(rows, k)
    ensures Reaches(rows, j, k) || Reaches(rows, k, j)
    decreases j + k
  {
    if rows[j].predecessor.None? {
      RootReaches(rows, k);
    } else if rows[k].predecessor.None? {
      RootReaches(rows, j);
    } else {
      var pj, pk := Parent(rows, j), Parent(rows, k);
      if pj <= pk { SameRootReaches(rows, pj, pk); } else { SameRootReaches(rows, pk, pj); }
      if pj == pk {
        ChildUnique(rows, pj, j, k);
      } else if Reaches(rows, pj, pk) {
        RetryOnPath(rows, pj, pk, j);
      } else {
        RetryOnPath(rows, pk, pj, k);
      }
    }
  }

  /**
    The retry chains are disjoint paths: every line has one root, and two lines have the same
    root exactly when one is a retry, at some distance, of the other.
   */
  lemma ChainsAreDisjointPaths(statements: seq<Statement>, j: nat, k: nat)
    requires j < |Run([], statements)| && k < |Run([], statements)|
    ensures Valid(Run([], statements))
    ensures var rows := Run([], statements);
            Root(rows, j) == Root(rows, k) <==> Reaches(rows, j, k) || Reaches(rows, k, j)
  {
    RunKeepsValid([], statements);
    var rows := Run([], statements);
    if Reaches(rows, j, k) { ReachesSharesRoot(rows, j, k); }
    if Reaches(rows, k, j) { ReachesSharesRoot(rows, k, j); }
    if Root(rows, j) == Root(rows, k) {
      if j <= k { SameRootReaches(rows, j, k); } else { SameRootReaches(rows, k, j); }
    }
  }

  /** A chain grows only at its tail: an accepted retry names a line that no other line retries. */
  lemma ChainsGrowAtTails(rows: Table, r: Line)
    requires Valid(rows) && Accepts(rows, Insert(r)) && r.predecessor.Some?
    ensures exists j: nat :: j < |rows| && rows[j].id == r.predecessor.value && forall k: nat :: !IsParent(rows, j, k)
  {
    InsertKeepsValid(rows, r);
    var after := rows + [r];
    var j := Parent(after, |rows|);
    assert rows[j].id == r.predecessor.value;
    forall k: nat ensures !IsParent(rows, j, k) {
      if IsParent(rows, j, k) {
        assert IsParent(after, j, k);
        ChildUnique(after, j, k, |rows|);
      }
    }
  }

  lemma StepKeepsParents(rows: Table, s: Statement, i: nat, j: nat)
    requires Valid(rows) && i < |rows| && j < |rows|
    ensures Valid(After(rows, s)) && IsParent(After(rows, s), i, j) <==> IsParent(rows, i, j)
  {
    StepKeepsValid(rows, s);
    if Accepts(rows, s) && s.Update? { UpdateKeepsParents(rows, s.row, s.newLine, i, j); }
  }

  /** What a line retries is settled when it is inserted, for every later run. */
  lemma {:induction false} ParentsForever(rows: Table, statements: seq<Statement>, i: nat, j: nat)
    requires Valid(rows) && i < |rows| && j < |rows|
    ensures Valid(Run(rows, statements)) && |rows| <= |Run(rows, statements)|
    ensures IsParent(Run(rows, statements), i, j) <==> IsParent(rows, i, j)
  {
    RunKeepsValid(rows, statements);
    if statements != [] {
      var n := |statements| - 1;
      ParentsForever(rows, statements[..n], i, j);
      StepKeepsParents(Run(rows, statements[..n]), statements[n], i, j);
    }
  }

  /** So the root of a line never changes either. */
  lemma {:induction false} RootsForever(rows: Table, statements: seq<Statement>, k: nat)
    requires Valid(rows) && k < |rows|
    ensures Valid(Run(rows, statements)) && k < |Run(rows, statements)|
    ensures Root(Run(rows, statements), k) == Root(rows, k)
    decreases k
  {
    var after := Run(rows, statements);
    RunKeepsValid(rows, statements);
    if rows[k].predecessor.Some? {
      var j := Parent(rows, k);
      ParentsForever(rows, statements, j, k);
      ParentUnique(after, j, k);
      RootsForever(rows, statements, j);
    } else {
      NoParentForever(rows, statements, k);
    }
  }

  lemma {:induction false} NoParentForever(rows: Table, statements: seq<Statement>, k: nat)
    requires Valid(rows) && k < |rows|
    ensures k < |Run(rows, statements)| && Run(rows, statements)[k].predecessor == rows[k].predecessor
  {
    RunKeepsValid(rows, statements);
    if statements != [] {
      var n := |statements| - 1;
      NoParentForever(rows, statements[..n], k);
    }
  }

  // ----- Reservations and references -----

  /** After every run at most one line per ledger entry is active, and active means reserved or submitted. */
  lemma OneActiveLinePerEntry(statements: seq<Statement>, j: nat, k: nat)
    requires j < |Run([], statements)| && k < |Run([], statements)|
    ensures var rows := Run([], statements);
            && (rows[k].active <==> rows[k].status in {Reserved, Submitted})
            && (rows[j].ledgerEntry == rows[k].ledgerEntry && rows[j].active && rows[k].active ==> j == k)
            && (rows[j].reference.Some? && rows[j].reference == rows[k].reference ==> j == k)
  {
    RunKeepsValid([], statements);
    var rows := Run([], statements);
    assert Checks(rows[k]);
    if j < k { assert Compatible(rows[j], rows[k]); } else if k < j { assert Compatible(rows[k], rows[j]); }
  }

  /** How the status of a row, its reservation and its reference may move in one step. */
  lemma StepOfRow(rows: Table, s: Statement, k: nat)
    requires k < |rows|
    ensures k < |After(rows, s)|
    ensures var before, after := rows[k], After(rows, s)[k];
            && TransitionOk(before.status, after.status)
            && (after.active ==> before.active)
            && (before.reference.Some? ==> after.reference == before.reference)
            && (before.reference.None? && after.reference.Some? ==>
                  before.status == Reserved && after.status == Submitted)
  {
  }

  /** A reference, once a line has one, never changes; a released reservation is never taken again. */
  lemma {:induction false} ReferenceForever(rows: Table, statements: seq<Statement>, k: nat)
    requires k < |rows|
    ensures k < |Run(rows, statements)|
    ensures rows[k].reference.Some? ==> Run(rows, statements)[k].reference == rows[k].reference
    ensures !rows[k].active ==> !Run(rows, statements)[k].active
  {
    if statements != [] {
      var n := |statements| - 1;
      ReferenceForever(rows, statements[..n], k);
      StepOfRow(Run(rows, statements[..n]), statements[n], k);
    }
  }

  /** A line that gained its reference during a run was submitted in that run, once. */
  lemma {:induction false} ReferenceWrittenAtSubmission(rows: Table, statements: seq<Statement>, k: nat)
    returns (at: nat)
    requires k < |rows| && rows[k].reference.None?
    requires k < |Run(rows, statements)| && Run(rows, statements)[k].reference.Some?
    ensures at < |statements| && k < |Run(rows, statements[..at])|
    ensures statements[at].Update? && statements[at].row == k && Accepts(Run(rows, statements[..at]), statements[at])
    ensures Run(rows, statements[..at])[k].status == Reserved && statements[at].newLine.status == Submitted
    ensures Run(rows, statements)[k].reference == statements[at].newLine.reference
  {
    var n := |statements| - 1;
    var before := Run(rows, statements[..n]);
    ReferenceForever(rows, statements[..n], k);
    StepOfRow(before, statements[n], k);
    if before[k].reference.Some? {
      at := ReferenceWrittenAtSubmission(rows, statements[..n], k);
      assert statements[..n][..at] == statements[..at];
    } else {
      at := n;
    }
  }

  // ----- What can be done, exactly -----

  const MOVES: set<(Status, Status)> := {
    (Reserved, Submitted), (Reserved, Void), (Submitted, Succeeded), (Submitted, Failed), (Failed, Succeeded)}

  /** The row as it stands in the status; `reference` is the provider's, written at submission. */
  function MovedTo(r: Line, status: Status, reference: string): Line {
    r.(status := status, active := status in {Reserved, Submitted},
       reference := if status == Submitted then Some(reference) else r.reference)
  }

  lemma MovedRow(r: Line, t: Status, reference: string)
    requires Checks(r) && (r.status, t) in MOVES
    ensures var moved := MovedTo(r, t, reference);
            && Checks(moved) && Guard(r, moved) && moved.id == r.id && moved.status == t
            && (moved.active ==> r.active) && moved.reference in {r.reference, Some(reference)}
  {
  }

  lemma MovedIndexes(rows: Table, k: nat, moved: Line, reference: string)
    requires Indexes(rows) && k < |rows| && Guard(rows[k], moved) && moved.id == rows[k].id
    requires (moved.active ==> rows[k].active) && moved.reference in {rows[k].reference, Some(reference)}
    requires forall j | 0 <= j < |rows| :: rows[j].reference != Some(reference)
    ensures Indexes(rows[k := moved])
  {
    UpdateIndexes(rows, k, moved);
    forall j | 0 <= j < |rows| && j != k ensures Compatible(rows[j], moved) && Compatible(moved, rows[j]) {
      if j < k { assert Compatible(rows[j], rows[k]); } else { assert Compatible(rows[k], rows[j]); }
    }
  }

  lemma MovedReferences(rows: Table, k: nat, moved: Line)
    requires Valid(rows) && k < |rows| && Guard(rows[k], moved) && moved.id == rows[k].id
    ensures ForeignKey(rows[k := moved])
  {
    var after := rows[k := moved];
    forall m: nat | m < |after| && after[m].predecessor.Some? ensures HasId(after, after[m].predecessor.value) {
      var j: nat :| j < m && IsParent(rows, j, m);
      assert after[j].id == rows[j].id;
    }
  }

  lemma MovedFits(rows: Table, k: nat, t: Status) returns (r: Line)
    requires Valid(rows) && k < |rows| && (rows[k].status, t) in MOVES
    ensures r.id == rows[k].id && r.status == t && Accepts(rows, Update(k, r))
  {
    var references := set x | x in rows && x.reference.Some? :: x.reference.value;
    var reference := Orders.UnusedText(references);
    forall j | 0 <= j < |rows| ensures rows[j].reference != Some(reference) {
      assert rows[j].reference.Some? ==> rows[j] in rows && rows[j].reference.value in references;
    }
    r := MovedTo(rows[k], t, reference);
    MovedRow(rows[k], t, reference);
    MovedIndexes(rows, k, r, reference);
    MovedReferences(rows, k, r);
    hide MovedTo, Checks, Guard, Indexes, ForeignKey;
  }

  /** The status graph, in every valid table: a line can be updated to another status exactly along these moves. */
  lemma MovesExactly(rows: Table, k: nat, t: Status)
    requires Valid(rows) && k < |rows| && rows[k].status != t
    ensures (exists r: Line :: r.id == rows[k].id && r.status == t && Accepts(rows, Update(k, r)))
       <==> (rows[k].status, t) in MOVES
  {
    if (rows[k].status, t) in MOVES {
      var r := MovedFits(rows, k, t);
    }
  }

  /** Which columns are filled follows the status, in every run. */
  lemma ColumnsFollowStatus(statements: seq<Statement>, k: nat)
    requires k < |Run([], statements)|
    ensures var r := Run([], statements)[k];
            && (r.active <==> r.status in {Reserved, Submitted})
            && (r.reference.Some? <==> r.status in {Submitted, Succeeded, Failed})
            && r.predecessor != Some(r.id) && r.amount > 0 && |r.currency| == 3 && |r.fingerprint| == 64
  {
    RunKeepsValid([], statements);
    assert Checks(Run([], statements)[k]);
  }

  /** No predecessor, or an existing line that nothing retries yet. */
  ghost predicate MayFollow(rows: Table, predecessor: Option<Id>) {
    predecessor.Some? ==>
      exists j: nat :: j < |rows| && rows[j].id == predecessor.value && forall k: nat :: !IsParent(rows, j, k)
  }

  /**
    A line for a ledger entry can be reserved exactly while the entry has no active line; as a
    retry exactly of the tail of a chain.
   */
  lemma ReservedExactly(rows: Table, entry: Id, predecessor: Option<Id>)
    requires Valid(rows)
    ensures (exists r: Line :: && r.ledgerEntry == entry && r.predecessor == predecessor && r.status == Reserved
                               && Accepts(rows, Insert(r)))
       <==> && MayFollow(rows, predecessor)
            && forall j | 0 <= j < |rows| :: !(rows[j].ledgerEntry == entry && rows[j].active)
  {
    if && MayFollow(rows, predecessor)
       && forall j | 0 <= j < |rows| :: !(rows[j].ledgerEntry == entry && rows[j].active)
    {
      var r := FreshLine(rows, entry, predecessor);
    }
    forall r: Line | && r.ledgerEntry == entry && r.predecessor == predecessor && r.status == Reserved
                     && Accepts(rows, Insert(r))
      ensures MayFollow(rows, predecessor)
      ensures forall j | 0 <= j < |rows| :: !(rows[j].ledgerEntry == entry && rows[j].active)
    {
      InsertIndexes(rows, r);
      if predecessor.Some? { ChainsGrowAtTails(rows, r); }
    }
  }

  lemma FreshLine(rows: Table, entry: Id, predecessor: Option<Id>) returns (r: Line)
    requires Valid(rows) && MayFollow(rows, predecessor)
    requires forall j | 0 <= j < |rows| :: !(rows[j].ledgerEntry == entry && rows[j].active)
    ensures r.ledgerEntry == entry && r.predecessor == predecessor && r.status == Reserved && Accepts(rows, Insert(r))
  {
    var ids, keys := set x | x in rows :: x.id, set x | x in rows :: x.key;
    var id := Orders.Unused(ids);
    var key := Orders.UnusedText(keys);
    r := Line(id, 0, entry, predecessor, 0, 0, 1, "GBP", "", seq(64, i => '0'), key, 0, Reserved, true, None);
    forall i | 0 <= i < |rows| ensures rows[i].id < id && rows[i].key != key {
      assert rows[i] in rows && rows[i].id in ids && rows[i].key in keys;
    }
    FollowsOne(rows, r);
    InsertIndexes(rows, r);
    RowFits(rows, r);
    hide Indexes, ForeignKey, MayFollow, IsParent;
  }

  lemma RowFits(rows: Table, r: Line)
    requires Valid(rows) && r.status == Reserved && r.active && r.reference == None
    requires r.amount > 0 && |r.currency| == 3 && |r.fingerprint| == 64
    requires forall i | 0 <= i < |rows| :: rows[i].id < r.id && rows[i].key != r.key
    requires forall j | 0 <= j < |rows| :: !(rows[j].ledgerEntry == r.ledgerEntry && rows[j].active)
    requires r.predecessor.Some? ==> forall i | 0 <= i < |rows| :: rows[i].predecessor != r.predecessor
    requires r.predecessor.Some? ==> r.predecessor.value < r.id
    ensures Checks(r) && forall j | 0 <= j < |rows| && j != |rows| :: Compatible(rows[j], r) && Compatible(r, rows[j])
  {
  }

  lemma FollowsOne(rows: Table, r: Line)
    requires Valid(rows) && MayFollow(rows, r.predecessor) && forall i | 0 <= i < |rows| :: rows[i].id < r.id
    ensures ForeignKey(rows + [r])
    ensures r.predecessor.Some? ==> forall i | 0 <= i < |rows| :: rows[i].predecessor != r.predecessor
    ensures r.predecessor.Some? ==> r.predecessor.value < r.id
  {
    if r.predecessor.Some? {
      var j: nat :| j < |rows| && rows[j].id == r.predecessor.value && forall k: nat :: !IsParent(rows, j, k);
      forall i | 0 <= i < |rows| ensures rows[i].predecessor != r.predecessor { assert !IsParent(rows, j, i); }
      RetryReferences(rows, j, r);
    } else {
      FirstReferences(rows, r);
    }
  }

  lemma FirstReferences(rows: Table, r: Line)
    requires Valid(rows) && r.predecessor.None?
    ensures ForeignKey(rows + [r])
  {
    var after := rows + [r];
    forall m: nat | m < |after| && after[m].predecessor.Some? ensures HasId(after, after[m].predecessor.value) {
      var i: nat :| i < m && IsParent(rows, i, m);
      assert after[i].id == rows[i].id;
    }
  }

  lemma RetryReferences(rows: Table, j: nat, r: Line)
    requires Valid(rows) && j < |rows| && r.predecessor == Some(rows[j].id)
    ensures ForeignKey(rows + [r])
  {
    var after := rows + [r];
    forall m: nat | m < |after| && after[m].predecessor.Some? ensures HasId(after, after[m].predecessor.value) {
      if m < |rows| {
        var i: nat :| i < m && IsParent(rows, i, m);
        assert after[i].id == rows[i].id;
      } else {
        assert after[j].id == rows[j].id;
      }
    }
  }
}
