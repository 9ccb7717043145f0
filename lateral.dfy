/** What `process_lateral_movement` decides. The accesses the employee holds
    (from the current-access projection) and those the new position requires
    (from the catalog) are both indexed by (normalised name, normalised
    `unidad_subunidad`); held keys the new position does not require are
    revoked, required keys not held are granted, and keys in both are kept. */
module LateralMovement {
  import opened Base
  import opened AccessTypes
  import opened Catalog
  import opened Projection

  /** The `unidad_subunidad` the new position is looked up with: the unit,
      followed by "/" and the sub-unit when one is given. */
  function NewUnidad(unit: string, subunit: Option<string>): (u: string)
    ensures subunit.Some? && subunit.value != "" ==> u == unit + "/" + subunit.value
    ensures subunit.None? || subunit.value == "" ==> u == unit
  {
    if subunit.Some? && subunit.value != "" then unit + "/" + subunit.value else unit
  }

  /** The `"name|||unidad"` key of both indexes. */
  datatype AccessKey = AccessKey(app: string, unidad: string)

  /** An entry of `current_access_by_key`. */
  datatype HeldAccess = HeldAccess(app: string, unidad: string, processAccess: string, status: string)

  /** `app_names`: the normalised names of the current accesses that have a name. */
  function HeldNames(current: seq<CurrentAccess>): set<string>
  {
    set e | e in current && e.appName != "" :: Norm(e.appName)
  }

  /** The key a current access is indexed under: the catalog's unit for its
      name when the catalog has one, else the employee's own. */
  function HeldKey(e: CurrentAccess, unidadMap: map<string, string>, defaultUnidad: string): AccessKey
  {
    var name := Norm(e.appName);
    AccessKey(name, if name in unidadMap then unidadMap[name] else defaultUnidad)
  }

  function HeldEntry(e: CurrentAccess, unidadMap: map<string, string>, defaultUnidad: string): HeldAccess
  {
    var k := HeldKey(e, unidadMap, defaultUnidad);
    HeldAccess(k.app, k.unidad, e.processAccess, e.status)
  }

  /** `current_access_by_key`: every current access with a non-blank name,
      under its key; a later access with the same key replaces the entry. */
  function HeldIndex(current: seq<CurrentAccess>, unidadMap: map<string, string>, defaultUnidad: string): (d: Dict<AccessKey, HeldAccess>)
    ensures d.Valid()
  {
    IndexBy(current, (e: CurrentAccess) => Norm(e.appName) != "", (e: CurrentAccess) => HeldKey(e, unidadMap, defaultUnidad), (e: CurrentAccess) => HeldEntry(e, unidadMap, defaultUnidad))
  }

  /** The held index has exactly the keys of the current accesses with a
      non-blank name, and each entry is that of an access filed under it. */
  lemma HeldIndexContents(current: seq<CurrentAccess>, unidadMap: map<string, string>, defaultUnidad: string)
    ensures var d := HeldIndex(current, unidadMap, defaultUnidad);
      && (forall e :: e in current && Norm(e.appName) != "" ==> HeldKey(e, unidadMap, defaultUnidad) in d.values)
      && (forall k :: k in d.values ==>
            exists e :: e in current && Norm(e.appName) != "" && HeldKey(e, unidadMap, defaultUnidad) == k
                        && d.values[k] == HeldEntry(e, unidadMap, defaultUnidad))
  {
    var keep := (e: CurrentAccess) => Norm(e.appName) != "";
    var key := (e: CurrentAccess) => HeldKey(e, unidadMap, defaultUnidad);
    var val := (e: CurrentAccess) => HeldEntry(e, unidadMap, defaultUnidad);
    forall e | e in current && Norm(e.appName) != "" {
      IndexByCovers(current, keep, key, val, e);
    }
    forall k | k in HeldIndex(current, unidadMap, defaultUnidad).values {
      IndexByValue(current, keep, key, val, k);
    }
  }

  /** The key a catalog row of the new position is indexed under. */
  function RequiredKey(a: Application): AccessKey
  {
    AccessKey(NameKey(a), UnidadKey(a))
  }

  /** `new_apps_by_key`: every required catalog row with a non-blank name,
      under its key; a later row with the same key replaces the entry. */
  function RequiredIndex(apps: seq<Application>): (d: Dict<AccessKey, Application>)
    ensures d.Valid()
  {
    IndexBy(apps, (a: Application) => NameKey(a) != "", RequiredKey, (a: Application) => a)
  }

  /** The required index has exactly the keys of the required rows with a
      non-blank name, and each entry is such a row filed under its own key. */
  lemma RequiredIndexContents(apps: seq<Application>)
    ensures var d := RequiredIndex(apps);
      && (forall a :: a in apps && NameKey(a) != "" ==> RequiredKey(a) in d.values)
      && (forall k :: k in d.values ==> d.values[k] in apps && NameKey(d.values[k]) != "" && RequiredKey(d.values[k]) == k)
  {
    var keep := (a: Application) => NameKey(a) != "";
    var val := (a: Application) => a;
    forall a | a in apps && NameKey(a) != "" {
      IndexByCovers(apps, keep, RequiredKey, val, a);
    }
    forall k | k in RequiredIndex(apps).values
      ensures RequiredIndex(apps).values[k] in apps && NameKey(RequiredIndex(apps).values[k]) != "" && RequiredKey(RequiredIndex(apps).values[k]) == k
    {
      IndexByValue(apps, keep, RequiredKey, val, k);
    }
  }

  /** The status test of the revoke branch. */
  predicate IsClosedCompleted(status: string)
  {
    Lower(Strip(status)) == CLOSED_COMPLETED
  }

  /** The three lists the partition loops build, by key. */
  datatype Partition = Partition(revoke: seq<AccessKey>, maintained: seq<AccessKey>, grant: seq<AccessKey>)

  /** The held keys, in index order, that are not required and whose status is closed completed. */
  function RevokeKeys(held: Dict<AccessKey, HeldAccess>, required: map<AccessKey, Application>, keys: seq<AccessKey>): (r: seq<AccessKey>)
    requires forall k :: k in keys ==> k in held.values
    ensures forall k :: k in r <==> k in keys && k !in required && IsClosedCompleted(held.values[k].status)
    decreases |keys|
  {
    if keys == [] then []
    else
      var k := keys[|keys| - 1];
      assert forall x :: x in keys <==> x in keys[..|keys| - 1] || x == k;
      RevokeKeys(held, required, keys[..|keys| - 1])
        + (if k !in required && IsClosedCompleted(held.values[k].status) then [k] else [])
  }

  /** One more key: it is revoked when not required and closed. */
  lemma RevokeKeysSnoc(held: Dict<AccessKey, HeldAccess>, required: map<AccessKey, Application>, keys: seq<AccessKey>, k: AccessKey)
    requires forall x :: x in keys ==> x in held.values
    requires k in held.values
    ensures forall x :: x in keys + [k] ==> x in held.values
    ensures RevokeKeys(held, required, keys + [k])
         == RevokeKeys(held, required, keys) + (if k !in required && IsClosedCompleted(held.values[k].status) then [k] else [])
  {
    assert (keys + [k])[..|keys|] == keys;
  }

  /** The partition: revoke what is held, not required and closed; keep what
      is held and required; grant what is required and not held. */
  function PartitionKeys(held: Dict<AccessKey, HeldAccess>, required: Dict<AccessKey, Application>): (p: Partition)
    requires held.Valid() && required.Valid()
    ensures forall k :: k in p.revoke <==> k in held.values && k !in required.values && IsClosedCompleted(held.values[k].status)
    ensures forall k :: k in p.maintained <==> k in held.values && k in required.values
    ensures forall k :: k in p.grant <==> k in required.values && k !in held.values
    ensures forall k :: !(k in p.revoke && k in p.grant) && !(k in p.revoke && k in p.maintained) && !(k in p.maintained && k in p.grant)
  {
    Partition(RevokeKeys(held, required.values, held.keys),
              Filter(held.keys, k => k in required.values),
              Filter(required.keys, k => k !in held.values))
  }

  /** The loop over `current_access_by_key`: a held key the new position does
      not require is revoked when its status is closed completed, and a held
      key it requires is kept. */
  method PartitionHeld(held: Dict<AccessKey, HeldAccess>, required: Dict<AccessKey, Application>)
    returns (revoke: seq<AccessKey>, maintained: seq<AccessKey>)
    requires held.Valid() && required.Valid()
    ensures revoke == PartitionKeys(held, required).revoke
    ensures maintained == PartitionKeys(held, required).maintained
  {
    revoke, maintained := [], [];
    ghost var done: seq<AccessKey> := [];
    var i := 0;
    while i < |held.keys|
      invariant 0 <= i <= |held.keys|
      invariant done == held.keys[..i]
      invariant forall k :: k in done ==> k in held.values
      invariant revoke == RevokeKeys(held, required.values, done)
      invariant maintained == Filter(done, k => k in required.values)
    {
      var key := held.keys[i];
      PrefixSnoc(held.keys, i);
      RevokeKeysSnoc(held, required.values, done, key);
      FilterStep(held.keys, k => k in required.values, i);
      if key !in required.values {
        if IsClosedCompleted(held.values[key].status) {
          revoke := revoke + [key];
        }
      } else {
        maintained := maintained + [key];
      }
      done := done + [key];
      i := i + 1;
    }
    assert held.keys[..i] == held.keys;
  }

  /** "closed completed" passes the status test. */
  lemma ClosedCompletedIsClosed()
    ensures IsClosedCompleted(CLOSED_COMPLETED)
  {
    TrimEndOfTrimmed(CLOSED_COMPLETED, IsSpace);
    TrimStartOfTrimmed(CLOSED_COMPLETED, IsSpace);
    assert Lower(CLOSED_COMPLETED) == CLOSED_COMPLETED;
  }

  /** Held accesses come from the current-access projection, whose entries
      are all closed completed: then every held key that the new position
      does not require is revoked, and the three lists together cover
      exactly the held and the required keys. */
  lemma {:induction false} PartitionOfCurrentAccess(current: seq<CurrentAccess>, unidadMap: map<string, string>, defaultUnidad: string, apps: seq<Application>)
    requires forall e :: e in current ==> e.status == CLOSED_COMPLETED
    ensures var held := HeldIndex(current, unidadMap, defaultUnidad);
      var required := RequiredIndex(apps);
      var p := PartitionKeys(held, required);
      && (forall k :: k in p.revoke <==> k in held.values && k !in required.values)
      && (forall k :: k in p.revoke || k in p.maintained <==> k in held.values)
      && (forall k :: k in p.maintained || k in p.grant <==> k in required.values)
  {
    var held := HeldIndex(current, unidadMap, defaultUnidad);
    ClosedCompletedIsClosed();
    forall k | k in held.values
      ensures IsClosedCompleted(held.values[k].status)
    {
      HeldIndexContents(current, unidadMap, defaultUnidad);
    }
  }

  // ---------------------------------------------------------------------
  // The records
  // ---------------------------------------------------------------------

  /** What the revoke branch looks up for a held access: the first catalog
      row with exactly that name (its name, sub-unit and ticket address), or
      the held name with no sub-unit and no address. */
  datatype RevokeTarget = RevokeTarget(app: string, subunit: string, pathEmailUrl: string)

  function RevokeTargetOf(catalog: seq<Application>, h: HeldAccess): (t: RevokeTarget)
    ensures t.app == h.app
  {
    match FirstAppByName(catalog, h.app)
    case Some(a) => RevokeTarget(a.logicalAccessName, a.subunit, a.pathEmailUrl)
    case None => RevokeTarget(h.app, "", "")
  }

  function LateralRevocationRecord(scotiaId: string, caseId: string, responsible: string, t: RevokeTarget): RecordData
  {
    RecordData(scotiaId, caseId, responsible, OFFBOARDING, t.subunit,
               "Revocación de acceso para " + t.app + " (lateral movement - cambio de posición)",
               t.pathEmailUrl, t.app, PENDIENTE, None)
  }

  function LateralGrantRecord(scotiaId: string, caseId: string, responsible: string, a: Application): RecordData
  {
    RecordData(scotiaId, caseId, responsible, LATERAL_MOVEMENT, a.subunit,
               "Otorgamiento de acceso para " + a.logicalAccessName + " (lateral movement - nueva posición)",
               a.pathEmailUrl, a.logicalAccessName, PENDIENTE, None)
  }

  /** The revocation records, one per revoked key, in order. */
  function RevocationRecords(catalog: seq<Application>, held: Dict<AccessKey, HeldAccess>, keys: seq<AccessKey>,
                             scotiaId: string, caseId: string, responsible: string): (r: seq<RecordData>)
    requires forall k :: k in keys ==> k in held.values
    ensures |r| == |keys|
    ensures forall i :: 0 <= i < |keys| ==> r[i] == LateralRevocationRecord(scotiaId, caseId, responsible, RevokeTargetOf(catalog, held.values[keys[i]]))
  {
    seq(|keys|, i requires 0 <= i < |keys| => LateralRevocationRecord(scotiaId, caseId, responsible, RevokeTargetOf(catalog, held.values[keys[i]])))
  }

  /** The grant records, one per granted key, in order. */
  function LateralGrantRecords(required: Dict<AccessKey, Application>, keys: seq<AccessKey>,
                               scotiaId: string, caseId: string, responsible: string): (r: seq<RecordData>)
    requires forall k :: k in keys ==> k in required.values
    ensures |r| == |keys|
    ensures forall i :: 0 <= i < |keys| ==> r[i] == LateralGrantRecord(scotiaId, caseId, responsible, required.values[keys[i]])
  {
    seq(|keys|, i requires 0 <= i < |keys| => LateralGrantRecord(scotiaId, caseId, responsible, required.values[keys[i]]))
  }

  /** Everything the lateral movement decides: both indexes and the partition. */
  datatype LateralPlan = LateralPlan(held: Dict<AccessKey, HeldAccess>, required: Dict<AccessKey, Application>, partition: Partition)

  /** The plan for a held index and the catalog rows of the new position. */
  function PlanFor(held: Dict<AccessKey, HeldAccess>, apps: seq<Application>): (p: LateralPlan)
    requires held.Valid()
    ensures p.held == held && p.required == RequiredIndex(apps) && p.required.Valid()
    ensures forall k :: k in p.partition.revoke ==> k in p.held.values && k !in p.required.values
    ensures forall k :: k in p.partition.grant ==> k in p.required.values && k !in p.held.values
  {
    var required := RequiredIndex(apps);
    LateralPlan(held, required, PartitionKeys(held, required))
  }

  /** The catalog rows the new position requires. */
  function NewPositionApps(catalog: seq<Application>, newPosition: string, newUnit: string, newSubunit: Option<string>): seq<Application>
  {
    AppsByPosition(catalog, newPosition, NewUnidad(newUnit, newSubunit), newSubunit, None)
  }

  /** The plan `process_lateral_movement` builds from the employee's current
      accesses, the employee's own `unidad_subunidad` (upper-cased) and the catalog. */
  function PlanLateral(current: seq<CurrentAccess>, defaultUnidad: string, catalog: seq<Application>,
                       newPosition: string, newUnit: string, newSubunit: Option<string>): (p: LateralPlan)
    ensures p.held.Valid() && p.required.Valid()
    ensures forall k :: k in p.partition.revoke ==> k in p.held.values && k !in p.required.values
    ensures forall k :: k in p.partition.grant ==> k in p.required.values && k !in p.held.values
  {
    var unidadMap := AppUnidadMap(catalog, HeldNames(current));
    PlanFor(HeldIndex(current, unidadMap, defaultUnidad), NewPositionApps(catalog, newPosition, newUnit, newSubunit))
  }

  /** The requests the movement submits: first the revocations, then the grants. */
  function LateralRequests(p: LateralPlan, catalog: seq<Application>, scotiaId: string, caseId: string, responsible: string): (r: seq<RecordData>)
    requires forall k :: k in p.partition.revoke ==> k in p.held.values
    requires forall k :: k in p.partition.grant ==> k in p.required.values
    ensures |r| == |p.partition.revoke| + |p.partition.grant|
    ensures forall x :: x in r ==>
      x.scotiaId == scotiaId && x.status == PENDIENTE && (x.processAccess == OFFBOARDING || x.processAccess == LATERAL_MOVEMENT)
  {
    RevocationRecords(catalog, p.held, p.partition.revoke, scotiaId, caseId, responsible)
      + LateralGrantRecords(p.required, p.partition.grant, scotiaId, caseId, responsible)
  }

  /** Each revocation is an `offboarding` row naming a held application the
      new position does not require. */
  lemma LateralRevocationTargets(held: Dict<AccessKey, HeldAccess>, apps: seq<Application>, catalog: seq<Application>,
                                 scotiaId: string, caseId: string, responsible: string)
    requires held.Valid()
    requires forall k :: k in held.values ==> held.values[k].app == k.app
    ensures var p := PlanFor(held, apps);
      var r := RevocationRecords(catalog, held, p.partition.revoke, scotiaId, caseId, responsible);
      forall i :: 0 <= i < |r| ==>
        r[i].processAccess == OFFBOARDING && p.partition.revoke[i] !in p.required.values && r[i].appAccessName == p.partition.revoke[i].app
  {
    var p := PlanFor(held, apps);
    var r := RevocationRecords(catalog, held, p.partition.revoke, scotiaId, caseId, responsible);
    forall i | 0 <= i < |r|
      ensures r[i].processAccess == OFFBOARDING && p.partition.revoke[i] !in p.required.values && r[i].appAccessName == p.partition.revoke[i].app
    {
      assert p.partition.revoke[i] in p.partition.revoke;
    }
  }

  /** Each grant is the `lateral_movement` row of a required catalog row whose
      key is not held. */
  lemma LateralGrantTargets(held: Dict<AccessKey, HeldAccess>, apps: seq<Application>,
                            scotiaId: string, caseId: string, responsible: string)
    requires held.Valid()
    ensures var p := PlanFor(held, apps);
      var r := LateralGrantRecords(p.required, p.partition.grant, scotiaId, caseId, responsible);
      forall i :: 0 <= i < |r| ==>
        r[i].processAccess == LATERAL_MOVEMENT
        && exists a :: a in apps && RequiredKey(a) !in held.values && r[i] == LateralGrantRecord(scotiaId, caseId, responsible, a)
  {
    var p := PlanFor(held, apps);
    var r := LateralGrantRecords(p.required, p.partition.grant, scotiaId, caseId, responsible);
    forall i | 0 <= i < |r|
      ensures r[i].processAccess == LATERAL_MOVEMENT
        && exists a :: a in apps && RequiredKey(a) !in held.values && r[i] == LateralGrantRecord(scotiaId, caseId, responsible, a)
    {
      var k := p.partition.grant[i];
      assert k in p.partition.grant;
      RequiredIndexContents(apps);
    }
  }

  /** The directory row after the movement: the new position and unit, and the
      combined `unidad_subunidad`. */
  function MovedEmployee(e: Employee, newPosition: string, newUnit: string, newSubunit: Option<string>): (r: Employee)
    ensures r.position == newPosition && r.unit == newUnit && r.unidadSubunidad == NewUnidad(newUnit, newSubunit)
    ensures r.email == e.email && r.activo == e.activo && r.inactivationDate == e.inactivationDate
  {
    e.(position := newPosition, unit := newUnit, unidadSubunidad := NewUnidad(newUnit, newSubunit))
  }
}
