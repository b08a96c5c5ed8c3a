/** scripts/release_contract.py: building and validating backup manifests. */
module BackupManifest {
  import opened Wrappers
  import opened Orders
  import Text

  /** An instant, in microseconds. */
  type Time = int

  const DAY: Time := 24 * 60 * 60 * 1_000_000

  /** One object of the backed-up store. */
  datatype Entry = Entry(key: string, versionId: string, sha256: string, bytes: int)

  /** What the caller of `build_backup_manifest` supplies besides the objects. */
  datatype Origin = Origin(
    releaseId: string, releaseRevision: string, configSha: string, alembicRevision: string,
    databaseSha: string, databaseBytes: int, databaseMarker: string, retentionDays: int)

  /** The fields of a manifest; `extras` are those that building never writes. */
  datatype Body = Body(
    schemaVersion: int, state: string, origin: Origin, objects: seq<Entry>, objectCount: int, objectBytes: int,
    createdAt: Option<string>, expiresAt: Option<string>, extras: map<string, string>)

  datatype Manifest = Manifest(body: Body, sha256: string)

  /** SHA-256 over canonical JSON, identifier formats, and how instants are read and written, uninterpreted. */
  datatype Authority = Authority(
    digest: Body -> string, releaseId: string -> bool, revision: string -> bool,
    instant: string -> Option<Time>, stamp: Time -> string)

  type Identity = (string, string)

  function Identify(e: Entry): Identity {
    (e.key, e.versionId)
  }

  /** Python's order on the sort keys `(key, version_id)`. */
  predicate IdentityLeq(a: Entry, b: Entry) {
    if a.key == b.key then StringLeq(a.versionId, b.versionId) else StringLeq(a.key, b.key)
  }

  function TotalBytes(objects: seq<Entry>): int {
    if objects == [] then 0 else objects[0].bytes + TotalBytes(objects[1..])
  }

  // ----- What validation means -----

  predicate EntryOk(e: Entry) {
    e.key != "" && e.versionId != "" && Text.IsSha256(e.sha256) && e.bytes >= 0
  }

  ghost predicate UniqueIdentities(objects: seq<Entry>) {
    forall i, j | 0 <= i < j < |objects| :: Identify(objects[i]) != Identify(objects[j])
  }

  ghost predicate InventoryOk(objects: seq<Entry>) {
    UniqueIdentities(objects) && forall i | 0 <= i < |objects| :: EntryOk(objects[i])
  }

  predicate OriginOk(o: Origin, a: Authority) {
    && a.releaseId(o.releaseId) && a.revision(o.releaseRevision)
    && Text.IsSha256(o.configSha) && Text.IsSha256(o.databaseSha)
    && Text.Strip(o.alembicRevision) != "" && Text.Strip(o.databaseMarker) != ""
    && o.databaseBytes > 0 && 1 <= o.retentionDays <= 35
  }

  ghost predicate Acceptable(m: Manifest, a: Authority) {
    && Text.IsSha256(m.sha256) && m.sha256 == a.digest(m.body)
    && m.body.schemaVersion == 1 && m.body.state == "complete"
    && OriginOk(m.body.origin, a) && InventoryOk(m.body.objects)
    && m.body.objectCount == |m.body.objects| && m.body.objectBytes == TotalBytes(m.body.objects)
  }

  // ----- The two operations -----

  lemma {:induction false} TotalAppend(xs: seq<Entry>, ys: seq<Entry>)
    ensures TotalBytes(xs + ys) == TotalBytes(xs) + TotalBytes(ys)
  {
    if xs == [] {
      assert xs + ys == ys;
    } else {
      assert (xs + ys)[1..] == xs[1..] + ys;
      TotalAppend(xs[1..], ys);
    }
  }

  lemma InventoryGrows(objects: seq<Entry>, i: nat)
    requires i < |objects|
    ensures TotalBytes(objects[..i + 1]) == TotalBytes(objects[..i]) + objects[i].bytes
    ensures InventoryOk(objects[..i + 1]) <==>
            && InventoryOk(objects[..i]) && EntryOk(objects[i])
            && forall k | 0 <= k < i :: Identify(objects[k]) != Identify(objects[i])
  {
    assert objects[..i + 1] == objects[..i] + [objects[i]];
    TotalAppend(objects[..i], [objects[i]]);
  }

  /** The loop over the inventory, which collects the identities it has met in `keys`. */
  method ValidateObjects(objects: seq<Entry>) returns (r: Result<int>)
    ensures r.Ok? <==> InventoryOk(objects)
    ensures r.Ok? ==> r.value == TotalBytes(objects)
  {
    var keys: set<Identity> := {};
    var total := 0;
    var i := 0;
    while i < |objects|
      invariant 0 <= i <= |objects|
      invariant InventoryOk(objects[..i])
      invariant forall k | 0 <= k < i :: Identify(objects[k]) in keys
      invariant forall id | id in keys :: exists k | 0 <= k < i :: Identify(objects[k]) == id
      invariant total == TotalBytes(objects[..i])
    {
      var item := objects[i];
      if item.key == "" || item.versionId == "" || Identify(item) in keys {
        return Err("Backup object keys/versions must be present and unique");
      }
      keys := keys + {Identify(item)};
      if !Text.IsSha256(item.sha256) {
        return Err("Backup object sha256 is invalid");
      }
      if item.bytes < 0 {
        return Err("Backup object size is invalid");
      }
      InventoryGrows(objects, i);
      total := total + item.bytes;
      i := i + 1;
    }
    assert objects[..i] == objects;
    return Ok(total);
  }

  /** `validate_backup_manifest`. */
  method Validate(m: Manifest, a: Authority) returns (r: Result<Manifest>)
    ensures r.Ok? <==> Acceptable(m, a)
    ensures r.Ok? ==> r.value == m
  {
    var value := m.body;
    if !Text.IsSha256(m.sha256) || m.sha256 != a.digest(value) {
      return Err("Backup manifest digest mismatch");
    }
    if value.schemaVersion != 1 || value.state != "complete" {
      return Err("Backup manifest is not complete schema version 1");
    }
    if !OriginOk(value.origin, a) {
      return Err("Backup manifest origin is invalid");
    }
    var objects := ValidateObjects(value.objects);
    if objects.Err? {
      return Err(objects.message);
    }
    if value.objectCount != |value.objects| || value.objectBytes != objects.value {
      return Err("Backup object totals disagree with inventory");
    }
    return Ok(Manifest(value, m.sha256));
  }

  predicate Dated(created: string, a: Authority) {
    a.instant(created).Some?
  }

  /** When the manifest was created and when it expires, as building writes them. */
  function Stamps(o: Origin, created: string, a: Authority): (string, string)
    requires Dated(created, a)
  {
    var t := a.instant(created).value;
    (a.stamp(t), a.stamp(t + o.retentionDays * DAY))
  }

  /** The manifest `build_backup_manifest` writes down before it validates it. */
  function Assemble(o: Origin, created: string, objects: seq<Entry>, a: Authority): Manifest
    requires Dated(created, a)
  {
    var ordered, stamps := Sort(IdentityLeq, objects), Stamps(o, created, a);
    var body := Body(1, "complete", o, ordered, |ordered|, TotalBytes(ordered), Some(stamps.0), Some(stamps.1), map[]);
    Manifest(body, a.digest(body))
  }

  /** What makes a backup acceptable, said of the objects in the order they were listed. */
  ghost predicate Recordable(o: Origin, created: string, objects: seq<Entry>, a: Authority) {
    && Dated(created, a) && OriginOk(o, a) && InventoryOk(objects)
    && Text.IsSha256(Assemble(o, created, objects, a).sha256)
  }

  /** `build_backup_manifest`. */
  method Build(o: Origin, created: string, objects: seq<Entry>, a: Authority) returns (r: Result<Manifest>)
    ensures r.Ok? <==> Recordable(o, created, objects, a)
    ensures r.Ok? ==> r.value == Assemble(o, created, objects, a) && Acceptable(r.value, a)
    ensures r.Ok? ==> r.value.body.objectCount == |objects| && r.value.body.objectBytes == TotalBytes(objects)
  {
    if !Dated(created, a) { return Err("Invalid isoformat string"); }
    BuiltTotals(o, created, objects, a);
    AcceptedIffRecordable(o, created, objects, a);
    r := Validate(Assemble(o, created, objects, a), a);
  }

  // ----- Order independence -----

  lemma IdentityOrder()
    ensures TotalPreorder(IdentityLeq)
  {
    StringOrder();
  }

  lemma TotalWithout(xs: seq<Entry>, k: nat)
    requires k < |xs|
    ensures TotalBytes(xs) == xs[k].bytes + TotalBytes(Without(xs, k))
  {
    var tail := xs[k..];
    assert tail[1..] == xs[k + 1..] && xs == xs[..k] + tail;
    TotalAppend(xs[..k], tail);
    TotalAppend(xs[..k], xs[k + 1..]);
  }

  lemma {:induction false} TotalOfPermutation(xs: seq<Entry>, ys: seq<Entry>)
    requires multiset(xs) == multiset(ys)
    ensures TotalBytes(xs) == TotalBytes(ys)
  {
    SameElements(xs, ys);
    if xs != [] {
      assert xs[0] in ys;
      var k :| 0 <= k < |ys| && ys[k] == xs[0];
      TotalWithout(ys, k);
      ElementsWithout(ys, k);
      TailElements(xs);
      hide Without;
      TotalOfPermutation(xs[1..], Without(ys, k));
    }
  }

  lemma InventoryOfPermutation(xs: seq<Entry>, ys: seq<Entry>)
    requires multiset(xs) == multiset(ys) && InventoryOk(xs)
    ensures InventoryOk(ys)
  {
    SameElements(xs, ys);
    DistinctPermutation(xs, ys);
    forall i | 0 <= i < |ys| ensures EntryOk(ys[i]) {
      assert ys[i] in xs;
    }
    forall i, j | 0 <= i < j < |ys| ensures Identify(ys[i]) != Identify(ys[j]) {
      assert ys[i] in xs && ys[j] in xs;
    }
  }

  lemma UniqueMeansSeparated(xs: seq<Entry>)
    requires UniqueIdentities(xs)
    ensures SeparatedBy(IdentityLeq, xs)
  {
    StringOrder();
    forall a, b | a in xs && b in xs && IdentityLeq(a, b) && IdentityLeq(b, a) ensures a == b {
      assert Identify(a) == Identify(b);
    }
  }

  /** Nothing is lost or invented: the manifest lists the objects given, and counts and sizes them. */
  lemma BuiltTotals(o: Origin, created: string, objects: seq<Entry>, a: Authority)
    requires Dated(created, a)
    ensures var b := Assemble(o, created, objects, a).body;
            && multiset(b.objects) == multiset(objects) && Sorted(IdentityLeq, b.objects)
            && b.objectCount == |objects| && b.objectBytes == TotalBytes(objects)
  {
    IdentityOrder();
    SortSorts(IdentityLeq, objects);
    TotalOfPermutation(objects, Sort(IdentityLeq, objects));
  }

  lemma AcceptedIffRecordable(o: Origin, created: string, objects: seq<Entry>, a: Authority)
    requires Dated(created, a)
    ensures Acceptable(Assemble(o, created, objects, a), a) <==> Recordable(o, created, objects, a)
  {
    var ordered := Sort(IdentityLeq, objects);
    if InventoryOk(objects) { InventoryOfPermutation(objects, ordered); }
    if InventoryOk(ordered) { InventoryOfPermutation(ordered, objects); }
  }

  lemma SortedAlike(xs: seq<Entry>, ys: seq<Entry>)
    requires UniqueIdentities(xs) && multiset(xs) == multiset(ys)
    ensures Sort(IdentityLeq, xs) == Sort(IdentityLeq, ys)
  {
    UniqueMeansSeparated(xs);
    IdentityOrder();
    hide IdentityLeq, UniqueIdentities, Sort;
    SortCanonical(IdentityLeq, xs, ys);
  }

  lemma UniqueIfRecordable(o: Origin, created: string, objects: seq<Entry>, a: Authority)
    requires Recordable(o, created, objects, a)
    ensures UniqueIdentities(objects)
  {
  }

  lemma SameAssembly(o: Origin, created: string, xs: seq<Entry>, ys: seq<Entry>, a: Authority)
    requires Dated(created, a) && Sort(IdentityLeq, xs) == Sort(IdentityLeq, ys)
    ensures Assemble(o, created, xs, a) == Assemble(o, created, ys, a)
  {
    hide Sort, TotalBytes, IdentityLeq;
  }

  lemma AcceptableInOtherOrder(o: Origin, created: string, xs: seq<Entry>, ys: seq<Entry>, a: Authority)
    requires Dated(created, a) && multiset(xs) == multiset(ys) && Acceptable(Assemble(o, created, xs, a), a)
    ensures Assemble(o, created, xs, a) == Assemble(o, created, ys, a)
  {
    AcceptedIffRecordable(o, created, xs, a);
    UniqueIfRecordable(o, created, xs, a);
    SortedAlike(xs, ys);
    SameAssembly(o, created, xs, ys, a);
    hide *;
  }

  /**
    The order in which the store lists its objects does not matter: two listings of the same
    objects are both rejected or give the same manifest, digest included.
   */
  lemma InventoryOrderIsIrrelevant(o: Origin, created: string, xs: seq<Entry>, ys: seq<Entry>, a: Authority)
    requires Dated(created, a) && multiset(xs) == multiset(ys)
    ensures Acceptable(Assemble(o, created, xs, a), a) <==> Acceptable(Assemble(o, created, ys, a), a)
    ensures Acceptable(Assemble(o, created, xs, a), a) ==> Assemble(o, created, xs, a) == Assemble(o, created, ys, a)
  {
    if Acceptable(Assemble(o, created, xs, a), a) { AcceptableInOtherOrder(o, created, xs, ys, a); }
    if Acceptable(Assemble(o, created, ys, a), a) { AcceptableInOtherOrder(o, created, ys, xs, a); }
  }

  /** Accepted manifests agree exactly when they were built from the same objects at the same origin and instants. */
  lemma SameManifestSameInventory(o: Origin, created: string, xs: seq<Entry>,
                                  p: Origin, dated: string, ys: seq<Entry>, a: Authority)
    requires Dated(created, a) && Dated(dated, a) && Acceptable(Assemble(o, created, xs, a), a)
    ensures Assemble(o, created, xs, a) == Assemble(p, dated, ys, a)
       <==> o == p && Stamps(o, created, a) == Stamps(p, dated, a) && multiset(xs) == multiset(ys)
  {
    BuiltTotals(o, created, xs, a);
    BuiltTotals(p, dated, ys, a);
    if o == p && multiset(xs) == multiset(ys) { AcceptableInOtherOrder(o, created, xs, ys, a); }
  }

  /** The manifest has the instants that building writes for `created`. */
  predicate Timed(b: Body, created: string, a: Authority) {
    Dated(created, a) && b.createdAt == Some(Stamps(b.origin, created, a).0)
    && b.expiresAt == Some(Stamps(b.origin, created, a).1)
  }

  ghost predicate AsBuilt(b: Body, a: Authority) {
    Sorted(IdentityLeq, b.objects) && b.extras == map[] && exists created :: Timed(b, created, a)
  }

  ghost predicate IsBuiltFrom(m: Manifest, o: Origin, created: string, objects: seq<Entry>, a: Authority) {
    Dated(created, a) && Assemble(o, created, objects, a) == m
  }

  /**
    Validation accepts more than building writes. An accepted manifest is one that some build
    writes exactly when it lists its objects in order, has no fields but those of a built one,
    and has the creation and expiry that its retention gives; validation checks none of these.
   */
  lemma BuiltExactly(m: Manifest, a: Authority)
    requires Acceptable(m, a)
    ensures (exists o, created, objects :: IsBuiltFrom(m, o, created, objects, a)) <==> AsBuilt(m.body, a)
  {
    if AsBuilt(m.body, a) {
      var created :| Timed(m.body, created, a);
      RebuiltFromItself(m, created, a);
    }
    forall o, created, objects | IsBuiltFrom(m, o, created, objects, a) ensures AsBuilt(m.body, a) {
      BuiltTotals(o, created, objects, a);
      assert Timed(m.body, created, a);
    }
  }

  lemma RebuiltFromItself(m: Manifest, created: string, a: Authority)
    requires Acceptable(m, a) && Sorted(IdentityLeq, m.body.objects) && m.body.extras == map[]
    requires Timed(m.body, created, a)
    ensures IsBuiltFrom(m, m.body.origin, created, m.body.objects, a)
  {
    var objects := m.body.objects;
    UniqueMeansSeparated(objects);
    IdentityOrder();
    SortOfSorted(IdentityLeq, objects);
    hide Sort, Sorted, IdentityLeq, TotalBytes, OriginOk, EntryOk, Text.IsSha256, UniqueIdentities;
  }

  // ----- What validation lets through -----

  /** The manifest of an inventory, with everything that validation checks in order. */
  function Complete(o: Origin, objects: seq<Entry>, createdAt: Option<string>, expiresAt: Option<string>,
                    extras: map<string, string>, a: Authority): Manifest {
    var body := Body(1, "complete", o, objects, |objects|, TotalBytes(objects), createdAt, expiresAt, extras);
    Manifest(body, a.digest(body))
  }

  /** Whatever instants and further fields a manifest claims, and in whatever order it lists its objects. */
  lemma CompleteIsAccepted(o: Origin, objects: seq<Entry>, createdAt: Option<string>, expiresAt: Option<string>,
                           extras: map<string, string>, a: Authority)
    requires OriginOk(o, a) && InventoryOk(objects) && forall b: Body :: Text.IsSha256(a.digest(b))
    ensures Acceptable(Complete(o, objects, createdAt, expiresAt, extras, a), a)
  {
  }

  /** For every origin and authority, an accepted manifest that only lists its objects out of order. */
  lemma UnsortedIsAccepted(o: Origin, created: string, a: Authority) returns (m: Manifest)
    requires Dated(created, a) && OriginOk(o, a) && forall b: Body :: Text.IsSha256(a.digest(b))
    ensures Acceptable(m, a) && m.body.origin == o
    ensures !Sorted(IdentityLeq, m.body.objects) && m.body.extras == map[] && Timed(m.body, created, a)
  {
    var objects := [Entry("b", "1", o.configSha, 0), Entry("a", "1", o.configSha, 0)];
    assert !IdentityLeq(objects[0], objects[1]);
    var stamps := Stamps(o, created, a);
    m := Complete(o, objects, Some(stamps.0), Some(stamps.1), map[], a);
    CompleteIsAccepted(o, objects, Some(stamps.0), Some(stamps.1), map[], a);
  }

  /** For every origin and authority, an accepted manifest that only expires at whatever time it says, or at none. */
  lemma MistimedIsAccepted(o: Origin, created: string, expiresAt: Option<string>, a: Authority) returns (m: Manifest)
    requires Dated(created, a) && OriginOk(o, a) && forall b: Body :: Text.IsSha256(a.digest(b))
    ensures Acceptable(m, a) && m.body.origin == o && Sorted(IdentityLeq, m.body.objects) && m.body.extras == map[]
    ensures m.body.createdAt == Some(Stamps(o, created, a).0) && m.body.expiresAt == expiresAt
  {
    var createdAt := Some(Stamps(o, created, a).0);
    m := Complete(o, [], createdAt, expiresAt, map[], a);
    CompleteIsAccepted(o, [], createdAt, expiresAt, map[], a);
  }

  /** For every origin and authority, an accepted manifest that only has fields of its own besides. */
  lemma ExtraFieldIsAccepted(o: Origin, created: string, extras: map<string, string>, a: Authority)
    returns (m: Manifest)
    requires Dated(created, a) && OriginOk(o, a) && forall b: Body :: Text.IsSha256(a.digest(b))
    ensures Acceptable(m, a) && m.body.origin == o && Sorted(IdentityLeq, m.body.objects) && m.body.extras == extras
    ensures Timed(m.body, created, a)
  {
    var stamps := Stamps(o, created, a);
    m := Complete(o, [], Some(stamps.0), Some(stamps.1), extras, a);
    CompleteIsAccepted(o, [], Some(stamps.0), Some(stamps.1), extras, a);
  }

  // ----- The retention -----

  /** A built manifest expires its retention after its creation: at least one day and at most 35. */
  lemma RetentionIsKept(o: Origin, created: string, objects: seq<Entry>, a: Authority)
    requires Recordable(o, created, objects, a) && forall t: Time :: a.instant(a.stamp(t)) == Some(t)
    ensures var b := Assemble(o, created, objects, a).body;
            && b.createdAt.Some? && a.instant(b.createdAt.value) == a.instant(created)
            && b.expiresAt.Some? && a.instant(b.expiresAt.value).Some?
            && a.instant(b.expiresAt.value).value - a.instant(created).value == o.retentionDays * 86_400_000_000
            && 86_400_000_000 <= a.instant(b.expiresAt.value).value - a.instant(created).value <= 35 * 86_400_000_000
  {
    hide Sort, TotalBytes, InventoryOk;
  }

  /** Which origins a backup can be recorded for, under an authority with proper digests. */
  lemma RecordableOrigins(o: Origin, created: string, a: Authority)
    requires forall b: Body :: Text.IsSha256(a.digest(b))
    ensures (exists objects :: Recordable(o, created, objects, a))
       <==> && a.instant(created).Some? && a.releaseId(o.releaseId) && a.revision(o.releaseRevision)
            && Text.IsSha256(o.configSha) && Text.IsSha256(o.databaseSha) && o.databaseBytes > 0
            && Text.Strip(o.alembicRevision) != "" && Text.Strip(o.databaseMarker) != ""
            && 1 <= o.retentionDays <= 35
  {
    if Dated(created, a) && OriginOk(o, a) { assert Recordable(o, created, [], a); }
    hide Sort, TotalBytes, Text.Strip;
  }

  /** A built manifest lists its objects by key, and those of one key by version. */
  lemma ListedByKeyThenVersion(o: Origin, created: string, objects: seq<Entry>, a: Authority, i: nat, j: nat)
    requires Dated(created, a) && i < j < |Assemble(o, created, objects, a).body.objects|
    ensures var listed := Assemble(o, created, objects, a).body.objects;
            && StringLeq(listed[i].key, listed[j].key)
            && (listed[i].key == listed[j].key ==> StringLeq(listed[i].versionId, listed[j].versionId))
  {
    BuiltTotals(o, created, objects, a);
    StringOrder();
    hide Assemble, TotalBytes, Sort;
  }
}
