/**
  alembic/versions/0106_development_baseline.py: the report publication protocol, as the set of
  single-row statements its triggers, checks, unique indexes and foreign key accept.
 */
module Publications {
  import opened Wrappers
  import Orders

  type Id = nat

  datatype State = Prepared | Publishing | Complete | Abandoned | Cleaning | Cleaned
  datatype Format = Csv | Pdf
  datatype WriteState = Registered | Settled | Uncertain

  datatype Intent = Intent(
    id: Id, issuance: Id, generation: int, state: State, csvKey: string, pdfKey: string,
    publisher: Option<Id>, lease: Option<int>, completedAt: Option<int>, abandonedAt: Option<int>,
    cleanedAt: Option<int>, createdAt: int, writeProtocol: int)

  datatype Write = Write(
    id: Id, intent: Id, format: Format, state: WriteState,
    errorCode: Option<string>, registeredAt: int, settledAt: Option<int>)

  /** The two tables, by primary key. */
  datatype Db = Db(intents: map<Id, Intent>, writes: map<Id, Write>)

  datatype Statement =
    | InsertIntent(intent: Intent)
    | UpdateIntent(intentId: Id, newIntent: Intent)
    | DeleteIntent(goneIntent: Id)
    | InsertWrite(write: Write)
    | UpdateWrite(writeId: Id, newWrite: Write)
    | DeleteWrite(goneWrite: Id)

  const EMPTY := Db(map[], map[])

  // ----- Row checks and indexes -----

  predicate StateFieldsOk(r: Intent) {
    match r.state
    case Prepared =>
      && r.publisher.None? && r.lease.Some? && r.completedAt.None? && r.abandonedAt.None?
      && r.cleanedAt.None?
    case Publishing =>
      && r.publisher.Some? && r.lease.Some? && r.completedAt.None? && r.abandonedAt.None?
      && r.cleanedAt.None?
    case Complete =>
      && r.publisher.None? && r.lease.None? && r.completedAt.Some? && r.abandonedAt.None?
      && r.cleanedAt.None?
    case Abandoned =>
      && r.publisher.None? && r.lease.None? && r.completedAt.None? && r.abandonedAt.Some?
      && r.cleanedAt.None?
    case Cleaning =>
      && r.publisher.Some? && r.lease.Some? && r.completedAt.None? && r.abandonedAt.Some?
      && r.cleanedAt.None?
    case Cleaned =>
      && r.publisher.None? && r.lease.None? && r.completedAt.None? && r.abandonedAt.Some?
      && r.cleanedAt.Some?
  }

  predicate IntentChecks(r: Intent) {
    r.csvKey != r.pdfKey && r.generation > 0 && StateFieldsOk(r) && r.writeProtocol in {0, 1}
  }

  predicate WriteChecks(r: Write) {
    match r.state
    case Registered => r.settledAt.None? && r.errorCode.None?
    case Settled => r.settledAt.Some?
    case Uncertain => r.settledAt.None? && r.errorCode.Some?
  }

  predicate Live(r: Intent) {
    r.state in {Prepared, Publishing}
  }

  /** Two rows that the unique constraints of the intents table let stand together. */
  predicate IntentsCompatible(a: Intent, b: Intent) {
    && !(a.issuance == b.issuance && a.generation == b.generation)
    && a.csvKey != b.csvKey && a.pdfKey != b.pdfKey
    && !(a.issuance == b.issuance && Live(a) && Live(b))
  }

  predicate IntentIndexes(intents: map<Id, Intent>) {
    forall i, j | i in intents && j in intents && i != j :: IntentsCompatible(intents[i], intents[j])
  }

  predicate WriteIndex(writes: map<Id, Write>) {
    forall i, j | i in writes && j in writes && i != j ::
      !(writes[i].intent == writes[j].intent && writes[i].format == writes[j].format)
  }

  predicate ForeignKey(db: Db) {
    forall w | w in db.writes :: db.writes[w].intent in db.intents
  }

  // ----- Triggers -----

  predicate TransitionOk(old': State, new': State) {
    || old' == new'
    || (old' == Prepared && new' in {Publishing, Abandoned})
    || (old' == Publishing && new' in {Complete, Abandoned})
    || (old' == Abandoned && new' == Cleaning)
    || (old' == Cleaning && new' in {Cleaned, Abandoned})
  }

  function WritesOf(db: Db, intent: Id): (r: set<Id>)
    ensures forall w :: w in r <==> w in db.writes && db.writes[w].intent == intent
  {
    set w | w in db.writes && db.writes[w].intent == intent
  }

  function SettledOf(db: Db, intent: Id): (r: set<Id>)
    ensures forall w :: w in r <==> w in db.writes && db.writes[w].intent == intent && db.writes[w].state == Settled
  {
    set w | w in db.writes && db.writes[w].intent == intent && db.writes[w].state == Settled
  }

  /** `guard_report_publication_settlement` on an update. */
  predicate SettlementGuard(db: Db, old': Intent, new': Intent) {
    && old'.writeProtocol == new'.writeProtocol
    && (new'.state in {Cleaning, Cleaned, Complete} && old'.state != new'.state ==>
          && WritesOf(db, new'.id) == SettledOf(db, new'.id)
          && (new'.state == Complete ==> |SettledOf(db, new'.id)| == 2))
  }

  /** `reject_report_publication_mutation`. */
  predicate MutationGuard(old': Intent, new': Intent) {
    && new'.issuance == old'.issuance && new'.generation == old'.generation && new'.csvKey == old'.csvKey
    && new'.pdfKey == old'.pdfKey && new'.createdAt == old'.createdAt
    && TransitionOk(old'.state, new'.state)
  }

  function Rekeyed(intents: map<Id, Intent>, id: Id, row: Intent): map<Id, Intent> {
    (map k | k in intents && k != id :: intents[k])[row.id := row]
  }

  // ----- Statements -----

  /** The statement passes every trigger and constraint. An update may even change the row's id. */
  predicate Accepts(db: Db, s: Statement) {
    match s
    case InsertIntent(r) =>
      r.writeProtocol == 1 && IntentChecks(r) && r.id !in db.intents && IntentIndexes(db.intents[r.id := r])
    case UpdateIntent(id, r) =>
      && id in db.intents && MutationGuard(db.intents[id], r) && SettlementGuard(db, db.intents[id], r)
      && IntentChecks(r) && (r.id == id || r.id !in db.intents)
      && IntentIndexes(Rekeyed(db.intents, id, r)) && ForeignKey(Db(Rekeyed(db.intents, id, r), db.writes))
    case DeleteIntent(_) => false
    case InsertWrite(w) =>
      && w.intent in db.intents && db.intents[w.intent].state == Publishing && db.intents[w.intent].writeProtocol == 1
      && w.state == Registered && WriteChecks(w) && w.id !in db.writes && WriteIndex(db.writes[w.id := w])
    case UpdateWrite(id, w) =>
      && id in db.writes && db.writes[id].state == Registered && w.state in {Settled, Uncertain}
      && w == db.writes[id].(state := w.state, settledAt := w.settledAt, errorCode := w.errorCode)
      && WriteChecks(w)
    case DeleteWrite(_) => false
  }

  /** The tables after a statement; a rejected statement changes nothing. */
  function After(db: Db, s: Statement): Db {
    if !Accepts(db, s) then db
    else
      match s
      case InsertIntent(r) => db.(intents := db.intents[r.id := r])
      case UpdateIntent(id, r) => db.(intents := Rekeyed(db.intents, id, r))
      case InsertWrite(w) => db.(writes := db.writes[w.id := w])
      case UpdateWrite(id, w) => db.(writes := db.writes[id := w])
      case _ => db
  }

  function Run(db: Db, statements: seq<Statement>): Db {
    if statements == [] then db
    else After(Run(db, statements[..|statements| - 1]), statements[|statements| - 1])
  }

  /** The tables as the database holds them, changed in place by one statement at a time. */
  class Tables {
    var intents: map<Id, Intent>
    var writes: map<Id, Write>

    constructor ()
      ensures Contents() == EMPTY && Consistent(Contents())
    {
      intents, writes := map[], map[];
    }

    ghost function Contents(): Db
      reads this
    {
      Db(intents, writes)
    }

    /** INSERT INTO report_publication_intents; the unique indexes are searched for the new row's values. */
    method Insert(row: Intent) returns (ok: bool)
      requires Consistent(Contents())
      modifies this
      ensures ok <==> Accepts(old(Contents()), InsertIntent(row))
      ensures Contents() == After(old(Contents()), InsertIntent(row)) && Consistent(Contents())
    {
      ConsistentKept(Contents(), InsertIntent(row));
      if row.id !in intents { InsertIndexes(intents, row); }
      hide IntentsCompatible, IntentIndexes;
      if row.writeProtocol != 1 { return false; }
      if !IntentChecks(row) || row.id in intents { return false; }
      if exists i | i in intents :: !IntentsCompatible(intents[i], row) || !IntentsCompatible(row, intents[i]) {
        return false;
      }
      intents := intents[row.id := row];
      return true;
    }

    /** UPDATE report_publication_intents: the triggers in name order, then the constraints. */
    method Update(id: Id, row: Intent) returns (ok: bool)
      requires Consistent(Contents())
      modifies this
      ensures ok <==> Accepts(old(Contents()), UpdateIntent(id, row))
      ensures Contents() == After(old(Contents()), UpdateIntent(id, row)) && Consistent(Contents())
    {
      hide Consistent;
      ConsistentKept(Contents(), UpdateIntent(id, row));
      if id !in intents { return false; }
      var before := intents[id];
      if row.issuance != before.issuance || row.generation != before.generation || row.csvKey != before.csvKey
         || row.pdfKey != before.pdfKey || row.createdAt != before.createdAt { return false; }
      if row.state != before.state && !TransitionOk(before.state, row.state) { return false; }
      if before.writeProtocol != row.writeProtocol { return false; }
      if row.state in {Cleaning, Cleaned, Complete} && before.state != row.state {
        if exists w | w in writes :: writes[w].intent == row.id && writes[w].state != Settled { return false; }
        if row.state == Complete && |SettledOf(Db(intents, writes), row.id)| != 2 { return false; }
      }
      if !IntentChecks(row) || (row.id != id && row.id in intents) { return false; }
      var rekeyed := Rekeyed(intents, id, row);
      if !IntentIndexes(rekeyed) || !ForeignKey(Db(rekeyed, writes)) { return false; }
      intents := rekeyed;
      return true;
    }

    /** INSERT INTO report_publication_writes; the unique index is searched for the new row's values. */
    method Register(row: Write) returns (ok: bool)
      requires Consistent(Contents())
      modifies this
      ensures ok <==> Accepts(old(Contents()), InsertWrite(row))
      ensures Contents() == After(old(Contents()), InsertWrite(row)) && Consistent(Contents())
    {
      ConsistentKept(Contents(), InsertWrite(row));
      if row.id !in writes { RegisterIndex(writes, row); }
      hide WriteIndex;
      if row.intent !in intents { return false; }
      if intents[row.intent].state != Publishing || intents[row.intent].writeProtocol != 1 || row.state != Registered {
        return false;
      }
      if !WriteChecks(row) || row.id in writes { return false; }
      if exists w | w in writes :: writes[w].intent == row.intent && writes[w].format == row.format { return false; }
      writes := writes[row.id := row];
      return true;
    }

    /** UPDATE report_publication_writes. */
    method Settle(id: Id, row: Write) returns (ok: bool)
      requires Consistent(Contents())
      modifies this
      ensures ok <==> Accepts(old(Contents()), UpdateWrite(id, row))
      ensures Contents() == After(old(Contents()), UpdateWrite(id, row)) && Consistent(Contents())
    {
      hide Consistent;
      ConsistentKept(Contents(), UpdateWrite(id, row));
      if id !in writes { return false; }
      if writes[id].state != Registered || row.state !in {Settled, Uncertain} { return false; }
      if row.id != writes[id].id || row.intent != writes[id].intent || row.format != writes[id].format
         || row.registeredAt != writes[id].registeredAt { return false; }
      if !WriteChecks(row) { return false; }
      writes := writes[id := row];
      return true;
    }
  }

  lemma InsertIndexes(intents: map<Id, Intent>, row: Intent)
    requires IntentIndexes(intents) && row.id !in intents
    ensures IntentIndexes(intents[row.id := row])
       <==> forall i | i in intents :: IntentsCompatible(intents[i], row) && IntentsCompatible(row, intents[i])
  {
    var after := intents[row.id := row];
    if IntentIndexes(after) {
      forall i | i in intents ensures IntentsCompatible(intents[i], row) && IntentsCompatible(row, intents[i]) {
        assert IntentsCompatible(after[i], after[row.id]) && IntentsCompatible(after[row.id], after[i]);
      }
    }
  }

  lemma RegisterIndex(writes: map<Id, Write>, row: Write)
    requires WriteIndex(writes) && row.id !in writes
    ensures WriteIndex(writes[row.id := row])
       <==> forall w | w in writes :: !(writes[w].intent == row.intent && writes[w].format == row.format)
  {
    var after := writes[row.id := row];
    if WriteIndex(after) {
      forall w | w in writes ensures !(writes[w].intent == row.intent && writes[w].format == row.format) {
        assert after[w] == writes[w] && after[row.id] == row;
      }
    }
  }

  // ----- What every accepted statement keeps -----

  predicate HasReceipt(db: Db, intent: Id, format: Format) {
    exists w | w in db.writes :: db.writes[w].intent == intent && db.writes[w].format == format
        && db.writes[w].state == Settled
  }

  predicate OnlySettled(db: Db, intent: Id) {
    forall w | w in db.writes && db.writes[w].intent == intent :: db.writes[w].state == Settled
  }

  /** A complete publication has both receipts, and no write of a complete or cleaned one is unsettled. */
  predicate ReceiptsOk(db: Db, id: Id)
    requires id in db.intents
  {
    && (db.intents[id].state in {Complete, Cleaning, Cleaned} ==> OnlySettled(db, id))
    && (db.intents[id].state == Complete ==> HasReceipt(db, id, Csv) && HasReceipt(db, id, Pdf))
  }

  predicate Consistent(db: Db) {
    && (forall i | i in db.intents :: db.intents[i].id == i && IntentChecks(db.intents[i]))
    && (forall w | w in db.writes :: db.writes[w].id == w && WriteChecks(db.writes[w]))
    && IntentIndexes(db.intents) && WriteIndex(db.writes) && ForeignKey(db)
  }

  predicate Safe(db: Db) {
    Consistent(db) && forall i | i in db.intents :: ReceiptsOk(db, i)
  }

  lemma ConsistentKept(db: Db, s: Statement)
    requires Consistent(db)
    ensures Consistent(After(db, s))
  {
  }

  /** Two settled writes of one publication are its csv and its pdf. */
  lemma TwoReceipts(db: Db, id: Id)
    requires WriteIndex(db.writes) && |SettledOf(db, id)| == 2
    ensures HasReceipt(db, id, Csv) && HasReceipt(db, id, Pdf)
  {
    var settled := SettledOf(db, id);
    var a :| a in settled;
    assert |settled - {a}| == 1;
    var b :| b in settled - {a};
    assert db.writes[a].format != db.writes[b].format;
  }

  lemma UpdateKeepsReceipts(db: Db, id: Id, r: Intent)
    requires Safe(db) && Accepts(db, UpdateIntent(id, r))
    ensures Safe(After(db, UpdateIntent(id, r)))
  {
    var after := After(db, UpdateIntent(id, r));
    ConsistentKept(db, UpdateIntent(id, r));
    forall i | i in after.intents ensures ReceiptsOk(after, i) {
      if i == r.id {
        assert ReceiptsOk(db, id);
        UpdatedKeepsHistory(db, id, r, false);
      } else {
        assert ReceiptsOk(db, i);
      }
    }
  }

  /** Only a publication without writes can change its id. */
  lemma RenamedHasNoWrites(db: Db, id: Id, r: Intent)
    requires Consistent(db) && Accepts(db, UpdateIntent(id, r)) && r.id != id
    ensures WritesOf(db, id) == {} && WritesOf(db, r.id) == {}
  {
  }

  /** The id of a publication may be updated exactly while it has no write. */
  lemma RenamedExactlyWithoutWrites(db: Db, id: Id)
    requires Consistent(db) && id in db.intents
    ensures (exists r: Intent :: r.id != id && Accepts(db, UpdateIntent(id, r))) <==> WritesOf(db, id) == {}
  {
    if WritesOf(db, id) == {} {
      var unused := Orders.Unused(db.intents.Keys);
      var r := db.intents[id].(id := unused);
      assert forall w | w in db.writes :: w !in WritesOf(db, id);
      assert Accepts(db, UpdateIntent(id, r));
    } else if exists r: Intent :: r.id != id && Accepts(db, UpdateIntent(id, r)) {
      var r: Intent :| r.id != id && Accepts(db, UpdateIntent(id, r));
      RenamedHasNoWrites(db, id, r);
    }
  }

  /**
    The triggers do not look at the state a publication is inserted in. A publication inserted
    in any state but `complete` keeps the receipts in order; one inserted `complete` breaks them.
   */
  lemma InsertKeepsReceiptsUnlessComplete(db: Db, r: Intent)
    requires Safe(db) && Accepts(db, InsertIntent(r))
    ensures Safe(After(db, InsertIntent(r))) <==> r.state != Complete
  {
    var after := After(db, InsertIntent(r));
    ConsistentKept(db, InsertIntent(r));
    assert forall w | w in db.writes :: db.writes[w].intent in db.intents;
    forall i | i in db.intents ensures ReceiptsOk(after, i) {
      assert ReceiptsOk(db, i);
    }
    if r.state == Complete {
      assert !HasReceipt(after, r.id, Csv);
      assert !ReceiptsOk(after, r.id);
    } else {
      assert ReceiptsOk(after, r.id);
    }
  }

  /** A publication may be inserted `complete` without a single write. */
  lemma InsertedCompleteHasNoReceipt() returns (r: Intent)
    ensures Accepts(EMPTY, InsertIntent(r)) && Safe(EMPTY) && !Safe(After(EMPTY, InsertIntent(r)))
  {
    r := Intent(0, 0, 1, Complete, "a.csv", "a.pdf", None, None, Some(0), None, None, 0, 1);
    InsertKeepsReceiptsUnlessComplete(EMPTY, r);
  }

  lemma WriteKeepsReceipts(db: Db, s: Statement)
    requires Safe(db) && Accepts(db, s) && (s.InsertWrite? || s.UpdateWrite?)
    ensures Safe(After(db, s))
  {
    var after := After(db, s);
    ConsistentKept(db, s);
    forall i | i in after.intents ensures ReceiptsOk(after, i) {
      assert ReceiptsOk(db, i);
      WriteKeepsHistory(db, s, i, false);
    }
  }

  lemma ReceiptSurvives(db: Db, s: Statement, intent: Id, format: Format)
    requires HasReceipt(db, intent, format)
    ensures HasReceipt(After(db, s), intent, format)
  {
    var w :| w in db.writes && db.writes[w].intent == intent && db.writes[w].format == format
        && db.writes[w].state == Settled;
    assert w in After(db, s).writes && After(db, s).writes[w] == db.writes[w];
  }

  /** The statement inserts a publication that claims to be complete already. */
  predicate InsertsComplete(s: Statement) {
    s.InsertIntent? && s.intent.state == Complete
  }

  /** Such an insert is the one way a step can break the receipts. */
  lemma StepIsSafe(db: Db, s: Statement)
    requires Safe(db)
    ensures Safe(After(db, s)) <==> !(InsertsComplete(s) && Accepts(db, s))
  {
    if Accepts(db, s) {
      match s
      case InsertIntent(r) => InsertKeepsReceiptsUnlessComplete(db, r);
      case UpdateIntent(id, r) => UpdateKeepsReceipts(db, id, r);
      case InsertWrite(_) => WriteKeepsReceipts(db, s);
      case UpdateWrite(_, _) => WriteKeepsReceipts(db, s);
      case _ =>
    }
  }

  // ----- Over whole runs -----

  /** The receipts stay in order throughout a run exactly when it has no accepted insert of a complete publication. */
  lemma RunsSafeExactly(db: Db, statements: seq<Statement>)
    requires Safe(db)
    ensures (forall n: nat | n <= |statements| :: Safe(Run(db, statements[..n])))
       <==> forall n: nat | n < |statements| ::
              !(InsertsComplete(statements[n]) && Accepts(Run(db, statements[..n]), statements[n]))
  {
    hide Safe, Accepts, After, InsertsComplete;
    if forall n: nat | n < |statements| ::
         !(InsertsComplete(statements[n]) && Accepts(Run(db, statements[..n]), statements[n])) {
      for n := 0 to |statements|
        invariant forall k: nat | k <= n :: Safe(Run(db, statements[..k]))
      {
        RunStep(db, statements, n);
        StepIsSafe(Run(db, statements[..n]), statements[n]);
      }
    } else {
      var n: nat :| n < |statements| && InsertsComplete(statements[n])
          && Accepts(Run(db, statements[..n]), statements[n]);
      RunStep(db, statements, n);
      if Safe(Run(db, statements[..n])) { StepIsSafe(Run(db, statements[..n]), statements[n]); }
    }
  }

  lemma RunStep(db: Db, statements: seq<Statement>, n: nat)
    requires n < |statements|
    ensures Run(db, statements[..n + 1]) == After(Run(db, statements[..n]), statements[n])
  {
    assert statements[..n + 1][..n] == statements[..n];
  }

  lemma OneWritePerFormat(db: Db, id: Id)
    requires WriteIndex(db.writes) && HasReceipt(db, id, Csv) && HasReceipt(db, id, Pdf)
    ensures |WritesOf(db, id)| == 2
  {
    var c :| c in db.writes && db.writes[c].intent == id && db.writes[c].format == Csv;
    var p :| p in db.writes && db.writes[p].intent == id && db.writes[p].format == Pdf;
    assert WritesOf(db, id) == {c, p};
  }

  lemma {:induction false} RunIsConsistent(db: Db, statements: seq<Statement>)
    requires Consistent(db)
    ensures Consistent(Run(db, statements))
  {
    if statements != [] {
      var n := |statements| - 1;
      RunIsConsistent(db, statements[..n]);
      ConsistentKept(Run(db, statements[..n]), statements[n]);
    }
  }

  /** At most one generation of an issuance is ever live, and none shares its number. */
  lemma OneLiveGeneration(statements: seq<Statement>, i: Id, j: Id)
    requires var db := Run(EMPTY, statements);
             i in db.intents && j in db.intents && i != j && db.intents[i].issuance == db.intents[j].issuance
    ensures var db := Run(EMPTY, statements);
            && db.intents[i].generation != db.intents[j].generation
            && !(db.intents[i].state in {Prepared, Publishing} && db.intents[j].state in {Prepared, Publishing})
  {
    RunIsConsistent(EMPTY, statements);
    var db := Run(EMPTY, statements);
    assert IntentsCompatible(db.intents[i], db.intents[j]);
  }

  /**
    The publication was inserted complete in the run, which starts from empty tables: its csv key
    names it for ever.
   */
  predicate InsertedComplete(statements: seq<Statement>, csvKey: string) {
    statements != [] &&
    var n := |statements| - 1;
    || InsertedComplete(statements[..n], csvKey)
    || (InsertsComplete(statements[n]) && statements[n].intent.csvKey == csvKey
        && Accepts(Run(EMPTY, statements[..n]), statements[n]))
  }

  /** What a publication's state says about its writes; `hollow` if it was inserted complete. */
  predicate HistoryOk(db: Db, id: Id, hollow: bool)
    requires id in db.intents
  {
    && (hollow ==> db.intents[id].state == Complete && WritesOf(db, id) == {})
    && (!hollow ==> ReceiptsOk(db, id))
  }

  ghost predicate HistoriesOk(db: Db, statements: seq<Statement>) {
    && (forall id | id in db.intents :: HistoryOk(db, id, InsertedComplete(statements, db.intents[id].csvKey)))
    && forall key | InsertedComplete(statements, key) :: exists id :: id in db.intents && db.intents[id].csvKey == key
  }

  /** The row that a statement leaves at `id`, seen before the statement. */
  function Before(db: Db, s: Statement, id: Id): Id {
    if Accepts(db, s) && s.UpdateIntent? && s.newIntent.id == id then s.intentId else id
  }

  lemma KeyOfRow(db: Db, s: Statement, id: Id)
    requires Consistent(db) && id in After(db, s).intents
    ensures var was := Before(db, s, id);
            if was in db.intents then After(db, s).intents[id].csvKey == db.intents[was].csvKey
            else Accepts(db, s) && s.InsertIntent? && s.intent == After(db, s).intents[id] && id == s.intent.id
  {
  }

  lemma RowKeepsHistory(db: Db, s: Statement, id: Id, hollow: bool)
    requires Consistent(db) && id in After(db, s).intents
    requires Before(db, s, id) in db.intents && HistoryOk(db, Before(db, s, id), hollow)
    ensures HistoryOk(After(db, s), id, hollow)
  {
    var was := Before(db, s, id);
    if Accepts(db, s) {
      match s
      case InsertIntent(r) => assert forall w :: w in WritesOf(After(db, s), id) <==> w in WritesOf(db, id);
      case UpdateIntent(k, r) => if id == r.id { UpdatedKeepsHistory(db, k, r, hollow); }
      case InsertWrite(w) => WriteKeepsHistory(db, s, id, hollow);
      case UpdateWrite(k, w) => WriteKeepsHistory(db, s, id, hollow);
      case _ =>
    }
  }

  lemma UpdatedKeepsHistory(db: Db, id: Id, r: Intent, hollow: bool)
    requires Consistent(db) && Accepts(db, UpdateIntent(id, r)) && HistoryOk(db, id, hollow)
    ensures HistoryOk(After(db, UpdateIntent(id, r)), r.id, hollow)
  {
    if r.state in {Cleaning, Cleaned, Complete} && db.intents[id].state != r.state {
      assert forall w | w in WritesOf(db, r.id) :: w in SettledOf(db, r.id);
      if r.state == Complete { TwoReceipts(db, r.id); }
    } else if r.id != id {
      RenamedHasNoWrites(db, id, r);
    }
  }

  lemma WriteKeepsHistory(db: Db, s: Statement, id: Id, hollow: bool)
    requires Consistent(db) && (s.InsertWrite? || s.UpdateWrite?) && Accepts(db, s)
    requires id in db.intents && HistoryOk(db, id, hollow)
    ensures HistoryOk(After(db, s), id, hollow)
  {
    if db.intents[id].state == Complete && !hollow {
      ReceiptSurvives(db, s, id, Csv);
      ReceiptSurvives(db, s, id, Pdf);
    }
  }

  lemma {:induction false} RunKeepsHistory(statements: seq<Statement>)
    ensures Consistent(Run(EMPTY, statements)) && HistoriesOk(Run(EMPTY, statements), statements)
  {
    if statements != [] {
      var n := |statements| - 1;
      RunKeepsHistory(statements[..n]);
      ConsistentKept(Run(EMPTY, statements[..n]), statements[n]);
      StepKeepsHistories(Run(EMPTY, statements[..n]), statements);
    }
  }

  lemma StepKeepsHistories(db: Db, statements: seq<Statement>)
    requires statements != [] && db == Run(EMPTY, statements[..|statements| - 1])
    requires Consistent(db) && HistoriesOk(db, statements[..|statements| - 1])
    ensures HistoriesOk(Run(EMPTY, statements), statements)
  {
    var n := |statements| - 1;
    var s, after := statements[n], Run(EMPTY, statements);
    forall id | id in after.intents
      ensures HistoryOk(after, id, InsertedComplete(statements, after.intents[id].csvKey))
    {
      KeyOfRow(db, s, id);
      var was := Before(db, s, id);
      if was in db.intents {
        SameOrigin(db, statements, was);
        RowKeepsHistory(db, s, id, InsertedComplete(statements, db.intents[was].csvKey));
      } else {
        InsertedHistory(db, statements);
      }
    }
    forall key | InsertedComplete(statements, key)
      ensures exists id :: id in after.intents && after.intents[id].csvKey == key
    {
      KeyStays(db, statements, key);
    }
  }

  /** A row that is there already is not the one inserted. */
  lemma SameOrigin(db: Db, statements: seq<Statement>, id: Id)
    requires statements != [] && db == Run(EMPTY, statements[..|statements| - 1]) && id in db.intents
    ensures InsertedComplete(statements, db.intents[id].csvKey)
       <==> InsertedComplete(statements[..|statements| - 1], db.intents[id].csvKey)
  {
    var s := statements[|statements| - 1];
    if s.InsertIntent? && Accepts(db, s) {
      var after := db.intents[s.intent.id := s.intent];
      assert IntentsCompatible(after[id], after[s.intent.id]);
    }
  }

  lemma InsertedHistory(db: Db, statements: seq<Statement>)
    requires statements != [] && db == Run(EMPTY, statements[..|statements| - 1])
    requires Consistent(db) && HistoriesOk(db, statements[..|statements| - 1])
    requires statements[|statements| - 1].InsertIntent? && Accepts(db, statements[|statements| - 1])
    ensures var r, after := statements[|statements| - 1].intent, Run(EMPTY, statements);
            r.id in after.intents && after.intents[r.id] == r
                && HistoryOk(after, r.id, InsertedComplete(statements, r.csvKey))
  {
    var n := |statements| - 1;
    var r, after := statements[n].intent, Run(EMPTY, statements);
    assert WritesOf(after, r.id) == {} by {
      assert forall w | w in db.writes :: db.writes[w].intent in db.intents;
    }
    InsertIndexes(db.intents, r);
    assert !InsertedComplete(statements[..n], r.csvKey);
  }

  lemma KeyStays(db: Db, statements: seq<Statement>, key: string)
    requires statements != [] && db == Run(EMPTY, statements[..|statements| - 1])
    requires Consistent(db) && HistoriesOk(db, statements[..|statements| - 1]) && InsertedComplete(statements, key)
    ensures exists id :: id in Run(EMPTY, statements).intents && Run(EMPTY, statements).intents[id].csvKey == key
  {
    var n := |statements| - 1;
    var s, after := statements[n], Run(EMPTY, statements);
    if InsertedComplete(statements[..n], key) {
      var id :| id in db.intents && db.intents[id].csvKey == key;
      var now := if Accepts(db, s) && s.UpdateIntent? && s.intentId == id then s.newIntent.id else id;
      assert now in after.intents && after.intents[now].csvKey == key;
    } else {
      assert after.intents[s.intent.id].csvKey == key;
    }
  }

  /**
    After every run whatever, cleaning and cleaned publications have settled writes only; a
    complete one has a settled csv write, a settled pdf write and no other, unless it was inserted
    complete, and exactly then it has no write at all.
   */
  lemma ReceiptsAfterEveryRun(statements: seq<Statement>, id: Id)
    requires id in Run(EMPTY, statements).intents
    ensures var db := Run(EMPTY, statements);
            && (db.intents[id].state in {Complete, Cleaning, Cleaned} ==> OnlySettled(db, id))
            && (db.intents[id].state == Complete ==>
                  if InsertedComplete(statements, db.intents[id].csvKey) then WritesOf(db, id) == {}
                  else HasReceipt(db, id, Csv) && HasReceipt(db, id, Pdf) && |WritesOf(db, id)| == 2)
  {
    var db := Run(EMPTY, statements);
    RunKeepsHistory(statements);
    var hollow := InsertedComplete(statements, db.intents[id].csvKey);
    assert HistoryOk(db, id, hollow);
    if db.intents[id].state == Complete && !hollow { OneWritePerFormat(db, id); }
  }

  /** The writes of a publication that is not publishing, once settled, are out of reach. */
  lemma WritesStay(db: Db, s: Statement, id: Id)
    requires Consistent(db) && id in db.intents && db.intents[id].state != Publishing && OnlySettled(db, id)
    ensures WritesOf(After(db, s), id) == WritesOf(db, id)
    ensures forall w | w in WritesOf(db, id) :: w in After(db, s).writes && After(db, s).writes[w] == db.writes[w]
  {
  }

  /** The publication at `now` is the complete one that was at `id`, with the same writes. */
  predicate SameComplete(db: Db, id: Id, after: Db, now: Id)
    requires id in db.intents
  {
    && now in after.intents && after.intents[now].state == Complete
        && after.intents[now].csvKey == db.intents[id].csvKey
    && WritesOf(after, now) == WritesOf(db, id) && OnlySettled(after, now)
    && (forall w | w in WritesOf(db, id) :: after.writes[w] == db.writes[w])
    && (WritesOf(db, id) != {} ==> now == id)
  }

  lemma CompleteStays(db: Db, s: Statement, id: Id) returns (now: Id)
    requires Consistent(db) && id in db.intents && db.intents[id].state == Complete && OnlySettled(db, id)
    ensures SameComplete(db, id, After(db, s), now)
  {
    now := if Accepts(db, s) && s.UpdateIntent? && s.intentId == id then s.newIntent.id else id;
    if now != id { RenamedHasNoWrites(db, id, s.newIntent); }
    WritesStay(db, s, id);
  }

  /**
    A complete publication whose writes are settled stays complete and keeps exactly its writes,
    for ever, whatever else is done. If it has a write at all, it keeps its id too.
   */
  lemma {:induction false} CompleteForever(db: Db, statements: seq<Statement>, id: Id) returns (now: Id)
    requires Consistent(db) && id in db.intents && db.intents[id].state == Complete && OnlySettled(db, id)
    ensures SameComplete(db, id, Run(db, statements), now)
  {
    if statements == [] {
      now := id;
    } else {
      var n := |statements| - 1;
      var earlier := CompleteForever(db, statements[..n], id);
      RunIsConsistent(db, statements[..n]);
      now := CompleteStays(Run(db, statements[..n]), statements[n], earlier);
    }
  }

  /** So in every run from empty tables: what is complete at some point is so ever after. */
  lemma CompleteAfterEveryRun(earlier: seq<Statement>, later: seq<Statement>, id: Id) returns (now: Id)
    requires id in Run(EMPTY, earlier).intents && Run(EMPTY, earlier).intents[id].state == Complete
    ensures SameComplete(Run(EMPTY, earlier), id, Run(Run(EMPTY, earlier), later), now)
  {
    RunIsConsistent(EMPTY, earlier);
    ReceiptsAfterEveryRun(earlier, id);
    now := CompleteForever(Run(EMPTY, earlier), later, id);
  }

  lemma OutcomeIsFinal(db: Db, s: Statement, w: Id)
    requires Consistent(db) && w in db.writes && db.writes[w].state != Registered
    ensures w in After(db, s).writes && After(db, s).writes[w] == db.writes[w]
  {
  }

  /** The write is recorded as uncertain, and its publication is not past publishing or abandoned. */
  predicate Blocked(db: Db, w: Id) {
    && w in db.writes && db.writes[w].state == Uncertain && db.writes[w].intent in db.intents
    && db.intents[db.writes[w].intent].state !in {Complete, Cleaning, Cleaned}
  }

  lemma BlockedStays(db: Db, s: Statement, w: Id)
    requires Consistent(db) && Blocked(db, w)
    ensures Blocked(After(db, s), w) && After(db, s).writes[w] == db.writes[w]
  {
    OutcomeIsFinal(db, s, w);
    var id := db.writes[w].intent;
    assert w in WritesOf(db, id) && w !in SettledOf(db, id);
    if Accepts(db, s) && s.UpdateIntent? && s.intentId == id && s.newIntent.id != id {
      RenamedHasNoWrites(db, id, s.newIntent);
    }
  }

  /**
    A write recorded as uncertain stays so, and its publication is never again, in any later
    run, complete, cleaning or cleaned.
   */
  lemma {:induction false} UncertainBlocksForever(db: Db, statements: seq<Statement>, w: Id)
    requires Consistent(db) && Blocked(db, w)
    ensures Blocked(Run(db, statements), w) && Run(db, statements).writes[w] == db.writes[w]
  {
    if statements != [] {
      var n := |statements| - 1;
      UncertainBlocksForever(db, statements[..n], w);
      RunIsConsistent(db, statements[..n]);
      BlockedStays(Run(db, statements[..n]), statements[n], w);
    }
  }

  /** So in every run from empty tables: an uncertain write blocks its publication from then on. */
  lemma UncertainBlocksEveryRun(earlier: seq<Statement>, later: seq<Statement>, w: Id)
    requires w in Run(EMPTY, earlier).writes && Run(EMPTY, earlier).writes[w].state == Uncertain
    ensures Blocked(Run(Run(EMPTY, earlier), later), w)
    ensures Run(Run(EMPTY, earlier), later).writes[w] == Run(EMPTY, earlier).writes[w]
  {
    RunIsConsistent(EMPTY, earlier);
    ReceiptsAfterEveryRun(earlier, Run(EMPTY, earlier).writes[w].intent);
    UncertainBlocksForever(Run(EMPTY, earlier), later, w);
  }

  // ----- What can be done, exactly -----

  /** The moves between different states. */
  const MOVES: set<(State, State)> := {
    (Prepared, Publishing), (Prepared, Abandoned), (Publishing, Complete), (Publishing, Abandoned),
    (Abandoned, Cleaning), (Cleaning, Cleaned), (Cleaning, Abandoned)}

  /** The row as it stands in the state, with whatever the state asks for. */
  function MovedTo(r: Intent, state: State): Intent {
    if r.state == state then r
    else
      r.(state := state,
         publisher := if state in {Publishing, Cleaning} then Some(0) else None,
         lease := if state in {Prepared, Publishing, Cleaning} then Some(0) else None,
         completedAt := if state == Complete then Some(0) else None,
         abandonedAt := if state in {Abandoned, Cleaning, Cleaned} then Some(0) else None,
         cleanedAt := if state == Cleaned then Some(0) else None)
  }

  lemma MovedRow(r: Intent, t: State)
    requires IntentChecks(r) && (r.state, t) in MOVES
    ensures var moved := MovedTo(r, t);
            && IntentChecks(moved) && MutationGuard(r, moved) && moved.state == t && moved.id == r.id
            && moved.writeProtocol == r.writeProtocol && (Live(moved) ==> Live(r))
  {
  }

  lemma MovedIndexes(intents: map<Id, Intent>, id: Id, moved: Intent)
    requires IntentIndexes(intents) && id in intents && MutationGuard(intents[id], moved) && moved.id == id
    requires Live(moved) ==> Live(intents[id])
    ensures IntentIndexes(Rekeyed(intents, id, moved))
  {
    var after := Rekeyed(intents, id, moved);
    forall i, j | i in after && j in after && i != j ensures IntentsCompatible(after[i], after[j]) {
      assert IntentsCompatible(intents[i], intents[j]);
    }
  }

  lemma MovedFits(db: Db, id: Id, t: State)
    requires Consistent(db) && id in db.intents && (db.intents[id].state, t) in MOVES
    requires t in {Cleaning, Cleaned, Complete} ==> OnlySettled(db, id)
    requires t == Complete ==> |WritesOf(db, id)| == 2
    ensures Accepts(db, UpdateIntent(id, MovedTo(db.intents[id], t)))
  {
    var r := MovedTo(db.intents[id], t);
    MovedRow(db.intents[id], t);
    MovedIndexes(db.intents, id, r);
    if t in {Cleaning, Cleaned, Complete} { assert WritesOf(db, id) == SettledOf(db, id); }
    hide MovedTo, IntentChecks, MutationGuard, IntentIndexes, WriteIndex, WriteChecks;
  }

  /**
    The state graph, in every consistent database: a publication can be updated from its state to
    another exactly along one of the seven moves, and then to cleaning, cleaned or complete
    exactly when its writes are settled, and to complete when they are two.
   */
  lemma MovesExactly(db: Db, id: Id, t: State)
    requires Consistent(db) && id in db.intents && db.intents[id].state != t
    ensures (exists r: Intent :: r.id == id && r.state == t && Accepts(db, UpdateIntent(id, r)))
       <==> && (db.intents[id].state, t) in MOVES
            && (t in {Cleaning, Cleaned, Complete} ==> OnlySettled(db, id))
            && (t == Complete ==> |WritesOf(db, id)| == 2)
  {
    if && (db.intents[id].state, t) in MOVES
       && (t in {Cleaning, Cleaned, Complete} ==> OnlySettled(db, id))
       && (t == Complete ==> |WritesOf(db, id)| == 2)
    {
      MovedFits(db, id, t);
    }
    forall r: Intent | r.id == id && r.state == t && Accepts(db, UpdateIntent(id, r))
      ensures && (db.intents[id].state, t) in MOVES
              && (t in {Cleaning, Cleaned, Complete} ==> OnlySettled(db, id))
              && (t == Complete ==> |WritesOf(db, id)| == 2)
    {
      MoveIsLegal(db, id, r);
    }
  }

  lemma MoveIsLegal(db: Db, id: Id, r: Intent)
    requires Consistent(db) && r.id == id && Accepts(db, UpdateIntent(id, r)) && db.intents[id].state != r.state
    ensures (db.intents[id].state, r.state) in MOVES
    ensures r.state in {Cleaning, Cleaned, Complete} ==> OnlySettled(db, id)
    ensures r.state == Complete ==> |WritesOf(db, id)| == 2
  {
    if r.state in {Cleaning, Cleaned, Complete} {
      assert forall w | w in WritesOf(db, id) :: w in SettledOf(db, id);
    }
  }

  /** A row may be updated without a change of state. */
  lemma StayingIsAccepted(db: Db, id: Id)
    requires Consistent(db) && id in db.intents
    ensures Accepts(db, UpdateIntent(id, db.intents[id]))
  {
    assert Rekeyed(db.intents, id, db.intents[id]) == db.intents;
  }

  /** A publication of an issuance can be prepared exactly while the issuance has no live one. */
  lemma PreparedExactlyWhenNoneLive(db: Db, issuance: Id)
    requires Consistent(db)
    ensures (exists r: Intent :: r.issuance == issuance && r.state == Prepared && Accepts(db, InsertIntent(r)))
       <==> forall i | i in db.intents ::
              !(db.intents[i].issuance == issuance && db.intents[i].state in {Prepared, Publishing})
  {
    if forall i | i in db.intents :: !(db.intents[i].issuance == issuance && Live(db.intents[i])) {
      var r := FreshIntent(db, issuance);
    }
    forall r: Intent | r.issuance == issuance && r.state == Prepared && Accepts(db, InsertIntent(r))
      ensures forall i | i in db.intents :: !(db.intents[i].issuance == issuance && Live(db.intents[i]))
    {
      InsertIndexes(db.intents, r);
    }
  }

  lemma FreshIntent(db: Db, issuance: Id) returns (r: Intent)
    requires Consistent(db)
    requires forall i | i in db.intents :: !(db.intents[i].issuance == issuance && Live(db.intents[i]))
    ensures r.issuance == issuance && r.state == Prepared && Accepts(db, InsertIntent(r))
  {
    var id := Orders.Unused(db.intents.Keys);
    var generations := set i | i in db.intents && db.intents[i].generation > 0 :: db.intents[i].generation as nat;
    var generation := Orders.Unused(generations + {0});
    var csv := Orders.UnusedText(set i | i in db.intents :: db.intents[i].csvKey);
    var pdf := Orders.UnusedText((set i | i in db.intents :: db.intents[i].pdfKey) + {csv});
    r := Intent(id, issuance, generation, Prepared, csv, pdf, None, Some(0), None, None, None, 0, 1);
    InsertIndexes(db.intents, r);
    forall i | i in db.intents ensures IntentsCompatible(db.intents[i], r) && IntentsCompatible(r, db.intents[i]) {
      assert db.intents[i].generation as nat in generations;
      assert db.intents[i].csvKey != csv && db.intents[i].pdfKey != pdf;
    }
  }

  /**
    A write of a format can be registered exactly while the publication is publishing and has none
    of the format.
   */
  lemma RegisteredExactlyWhilePublishing(db: Db, id: Id, format: Format)
    requires Consistent(db)
    ensures (exists w: Write :: w.intent == id && w.format == format && Accepts(db, InsertWrite(w)))
       <==> && id in db.intents && db.intents[id].state == Publishing && db.intents[id].writeProtocol == 1
            && forall w | w in db.writes :: !(db.writes[w].intent == id && db.writes[w].format == format)
  {
    var unused := Orders.Unused(db.writes.Keys);
    var w := Write(unused, id, format, Registered, None, 0, None);
    RegisterIndex(db.writes, w);
    assert w.intent == id && w.format == format;
    forall v: Write | v.intent == id && v.format == format && Accepts(db, InsertWrite(v))
      ensures forall w | w in db.writes :: !(db.writes[w].intent == id && db.writes[w].format == format)
    {
      RegisterIndex(db.writes, v);
    }
  }

  /** A write can be settled, or marked uncertain, exactly once: while it is registered. */
  lemma SettledExactlyOnce(db: Db, w: Id)
    requires Consistent(db)
    ensures (exists r: Write :: r.state == Settled && Accepts(db, UpdateWrite(w, r)))
       <==> w in db.writes && db.writes[w].state == Registered
    ensures (exists r: Write :: r.state == Uncertain && Accepts(db, UpdateWrite(w, r)))
       <==> w in db.writes && db.writes[w].state == Registered
    ensures forall r: Write | Accepts(db, UpdateWrite(w, r)) ::
              && r.state in {Settled, Uncertain} && r.id == w
              && r.intent == db.writes[w].intent && r.format == db.writes[w].format
  {
    if w in db.writes && db.writes[w].state == Registered {
      var settled := db.writes[w].(state := Settled, settledAt := Some(0));
      var uncertain := db.writes[w].(state := Uncertain, errorCode := Some("timeout"));
      assert Accepts(db, UpdateWrite(w, settled)) && settled.state == Settled;
      assert Accepts(db, UpdateWrite(w, uncertain)) && uncertain.state == Uncertain;
    }
  }

  /** Which columns are filled follows the state, in every run. */
  lemma ColumnsFollowState(statements: seq<Statement>, id: Id)
    requires id in Run(EMPTY, statements).intents
    ensures var r := Run(EMPTY, statements).intents[id];
            && r.id == id && r.generation > 0 && r.csvKey != r.pdfKey
            && (r.publisher.Some? <==> r.state in {Publishing, Cleaning})
            && (r.lease.Some? <==> r.state in {Prepared, Publishing, Cleaning})
            && (r.completedAt.Some? <==> r.state == Complete)
            && (r.abandonedAt.Some? <==> r.state in {Abandoned, Cleaning, Cleaned})
            && (r.cleanedAt.Some? <==> r.state == Cleaned)
  {
    RunIsConsistent(EMPTY, statements);
    assert IntentChecks(Run(EMPTY, statements).intents[id]);
  }

  /** The protocol can be carried through: a run from empty tables that completes a publication of any issuance. */
  lemma PublishingCanComplete(issuance: Id) returns (statements: seq<Statement>, id: Id)
    ensures id in Run(EMPTY, statements).intents
    ensures var r := Run(EMPTY, statements).intents[id]; r.state == Complete && r.issuance == issuance
    ensures HasReceipt(Run(EMPTY, statements), id, Csv) && HasReceipt(Run(EMPTY, statements), id, Pdf)
    ensures !InsertedComplete(statements, Run(EMPTY, statements).intents[id].csvKey)
  {
    id := 0;
    var r := Intent(0, issuance, 1, Prepared, "a.csv", "a.pdf", None, Some(0), None, None, None, 0, 1);
    var csv, pdf := Write(0, 0, Csv, Registered, None, 0, None), Write(1, 0, Pdf, Registered, None, 0, None);
    var steps := [InsertIntent(r), UpdateIntent(0, MovedTo(r, Publishing)), InsertWrite(csv), InsertWrite(pdf),
                  UpdateWrite(0, csv.(state := Settled, settledAt := Some(0))),
                  UpdateWrite(1, pdf.(state := Settled, settledAt := Some(0))),
                  UpdateIntent(0, MovedTo(MovedTo(r, Publishing), Complete))];
    var published := Db(map[0 := MovedTo(r, Publishing)], map[]);
    var db1 := Db(map[0 := r], map[]);
    StartsRun(r, steps);
    statements := steps;
    SettledRun(r, published, csv, pdf, steps);
    RunsThrough(EMPTY, steps, db1, published);
    RunKeepsHistory(steps);
    hide After, Accepts, MovedTo, Consistent;
  }

  lemma StartsRun(r: Intent, steps: seq<Statement>)
    requires r.state == Prepared && IntentChecks(r) && r.id == 0 && r.writeProtocol == 1
    requires |steps| == 7 && steps[0] == InsertIntent(r) && steps[1] == UpdateIntent(0, MovedTo(r, Publishing))
    ensures After(EMPTY, steps[0]) == Db(map[0 := r], map[])
    ensures After(Db(map[0 := r], map[]), steps[1]) == Db(map[0 := MovedTo(r, Publishing)], map[])
  {
    var db := Db(map[0 := r], map[]);
    assert Accepts(EMPTY, steps[0]);
    MovedFits(db, 0, Publishing);
    assert Rekeyed(db.intents, 0, MovedTo(r, Publishing)) == map[0 := MovedTo(r, Publishing)];
    hide IntentChecks, MovedTo;
  }

  lemma RunsThrough(db: Db, steps: seq<Statement>, db1: Db, db2: Db)
    requires |steps| == 7 && After(db, steps[0]) == db1 && After(db1, steps[1]) == db2
    ensures Run(db, steps) == After(After(After(After(After(db2, steps[2]), steps[3]), steps[4]), steps[5]), steps[6])
  {
    assert steps[..0] == [] && steps[..7] == steps;
    RunStep(db, steps, 0);
    RunStep(db, steps, 1);
    RunStep(db, steps, 2);
    RunStep(db, steps, 3);
    RunStep(db, steps, 4);
    RunStep(db, steps, 5);
    RunStep(db, steps, 6);
    hide After;
  }

  lemma SettledRun(r: Intent, published: Db, csv: Write, pdf: Write, steps: seq<Statement>)
    requires published == Db(map[0 := MovedTo(r, Publishing)], map[])
    requires r.state == Prepared && IntentChecks(r) && r.id == 0 && r.writeProtocol == 1
    requires csv == Write(0, 0, Csv, Registered, None, 0, None) && pdf == Write(1, 0, Pdf, Registered, None, 0, None)
    requires |steps| == 7 && steps[2] == InsertWrite(csv) && steps[3] == InsertWrite(pdf)
    requires steps[4] == UpdateWrite(0, csv.(state := Settled, settledAt := Some(0)))
    requires steps[5] == UpdateWrite(1, pdf.(state := Settled, settledAt := Some(0)))
    requires steps[6] == UpdateIntent(0, MovedTo(MovedTo(r, Publishing), Complete))
    ensures var done := After(After(After(After(After(published, steps[2]), steps[3]), steps[4]), steps[5]), steps[6]);
            done.intents == map[0 := MovedTo(MovedTo(r, Publishing), Complete)]
  {
    var s, t := csv.(state := Settled, settledAt := Some(0)), pdf.(state := Settled, settledAt := Some(0));
    MovedRow(r, Publishing);
    WritesRun(published.intents, csv, pdf, steps);
    CompletesRun(MovedTo(r, Publishing), s, t);
    hide After, Accepts, MovedTo, IntentChecks, MutationGuard;
  }

  lemma CompletesRun(r: Intent, csv: Write, pdf: Write)
    requires r.state == Publishing && IntentChecks(r) && r.id == 0 && WriteChecks(csv) && WriteChecks(pdf)
    requires csv.id == 0 && csv.intent == 0 && csv.format == Csv && csv.state == Settled
    requires pdf.id == 1 && pdf.intent == 0 && pdf.format == Pdf && pdf.state == Settled
    ensures After(Db(map[0 := r], map[0 := csv, 1 := pdf]), UpdateIntent(0, MovedTo(r, Complete))).intents
         == map[0 := MovedTo(r, Complete)]
  {
    var db := Db(map[0 := r], map[0 := csv, 1 := pdf]);
    assert WritesOf(db, 0) == {0, 1} && OnlySettled(db, 0);
    assert Consistent(db);
    MovedFits(db, 0, Complete);
    assert Rekeyed(db.intents, 0, MovedTo(r, Complete)) == map[0 := MovedTo(r, Complete)];
    hide IntentChecks, WriteChecks, Consistent;
  }

  lemma WritesRun(i: map<Id, Intent>, csv: Write, pdf: Write, steps: seq<Statement>)
    requires 0 in i && i[0].state == Publishing && i[0].writeProtocol == 1
    requires csv == Write(0, 0, Csv, Registered, None, 0, None) && pdf == Write(1, 0, Pdf, Registered, None, 0, None)
    requires |steps| == 7 && steps[2] == InsertWrite(csv) && steps[3] == InsertWrite(pdf)
    requires steps[4] == UpdateWrite(0, csv.(state := Settled, settledAt := Some(0)))
    requires steps[5] == UpdateWrite(1, pdf.(state := Settled, settledAt := Some(0)))
    ensures After(After(After(After(Db(i, map[]), steps[2]), steps[3]), steps[4]), steps[5])
         == Db(i, map[0 := csv.(state := Settled, settledAt := Some(0)),
                      1 := pdf.(state := Settled, settledAt := Some(0))])
  {
    var s, t := csv.(state := Settled, settledAt := Some(0)), pdf.(state := Settled, settledAt := Some(0));
    assert After(Db(i, map[]), steps[2]) == Db(i, map[0 := csv]);
    assert After(Db(i, map[0 := csv]), steps[3]) == Db(i, map[0 := csv, 1 := pdf]);
    assert After(Db(i, map[0 := csv, 1 := pdf]), steps[4]) == Db(i, map[0 := s, 1 := pdf]);
    assert After(Db(i, map[0 := s, 1 := pdf]), steps[5]) == Db(i, map[0 := s, 1 := t]);
  }

  /** After every run no two publications, of whatever issuances, share an object key. */
  lemma ObjectKeysAreNeverShared(statements: seq<Statement>, i: Id, j: Id)
    requires i in Run(EMPTY, statements).intents && j in Run(EMPTY, statements).intents && i != j
    ensures var db := Run(EMPTY, statements);
            && db.intents[i].csvKey != db.intents[j].csvKey && db.intents[i].pdfKey != db.intents[j].pdfKey
            && db.intents[i].csvKey != db.intents[i].pdfKey
  {
    RunIsConsistent(EMPTY, statements);
    var db := Run(EMPTY, statements);
    assert IntentsCompatible(db.intents[i], db.intents[j]) && IntentChecks(db.intents[i]);
  }

  /** Which columns of a write are filled follows its state, in every run. */
  lemma WriteColumnsFollowState(statements: seq<Statement>, w: Id)
    requires w in Run(EMPTY, statements).writes
    ensures var r := Run(EMPTY, statements).writes[w];
            && r.id == w && r.intent in Run(EMPTY, statements).intents
            && (r.settledAt.Some? <==> r.state == Settled)
            && (r.state == Registered ==> r.errorCode.None?) && (r.state == Uncertain ==> r.errorCode.Some?)
  {
    RunIsConsistent(EMPTY, statements);
    assert WriteChecks(Run(EMPTY, statements).writes[w]);
  }
}
