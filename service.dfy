/** `AccessManagementService`: the `headcount` and `historico` tables it
    updates and the `applications` catalog it reads, with the lifecycle
    operations written as the step-by-step procedures they are, each proved
    to leave the tables exactly as the decision functions of the other
    modules say. */
module Service {
  import opened Base
  import opened AccessTypes
  import opened Ledger
  import opened Catalog
  import opened Projection
  import opened Onboarding
  import opened Offboarding
  import opened LateralMovement
  import opened FlexStaff

  /** The directory row after `update_employee_status`. */
  function WithStatus(e: Employee, active: bool, now: int): (r: Employee)
    ensures r.activo == active
    ensures r.inactivationDate == if active then None else Some(now)
    ensures r.email == e.email && r.position == e.position && r.unit == e.unit && r.unidadSubunidad == e.unidadSubunidad
  {
    e.(activo := active, inactivationDate := if active then None else Some(now))
  }

  /** The `unidad_subunidad` `update_employee_position` writes when the caller gives none. */
  function DefaultUnidad(unit: string): (u: string)
    ensures unit != "" ==> u == unit + "/General"
    ensures unit == "" ==> u == "Sin Unidad/Subunidad"
  {
    if unit != "" then unit + "/General" else "Sin Unidad/Subunidad"
  }

  class AccessManagementService {
    /** `headcount`, keyed by `scotia_id`. */
    var headcount: map<string, Employee>
    /** `historico`, in insertion order. */
    var historico: seq<HistoryRow>
    /** `applications`; no operation of the service writes it. */
    const applications: seq<Application>

    /** The ledger invariant every operation keeps: at most one pending
        grant per employee and application. The stored table need not hold
        it, since rows written outside this service skip the pending check;
        each operation keeps it when it held before. */
    ghost predicate Valid()
      reads this`historico
    {
      NoDuplicatePending(historico)
    }

    constructor (directory: map<string, Employee>, ledger: seq<HistoryRow>, catalog: seq<Application>)
      ensures Valid() <==> NoDuplicatePending(ledger)
      ensures headcount == directory && historico == ledger && applications == catalog
    {
      headcount := directory;
      historico := ledger;
      applications := catalog;
    }

    /** `create_historical_record`: refuses a record without `scotia_id` or
        `process_access`, reports a still-pending request for the same
        employee and application as success without inserting, and otherwise
        inserts the row with the employee's e-mail and the time `now`; the
        `INSERT` has no column for the expiration date, so the row is stored
        without it. */
    method CreateHistoricalRecord(rec: RecordData, now: int) returns (ok: bool)
      modifies this
      ensures old(Valid()) ==> Valid()
      ensures ok <==> rec.scotiaId != "" && rec.processAccess != ""
      ensures historico == Append(old(historico), old(headcount), rec, now)
      ensures headcount == old(headcount)
    {
      if rec.scotiaId == "" || rec.processAccess == "" {
        return false;
      }
      if rec.processAccess != OFFBOARDING {
        var existing := PendingCount(historico, rec.scotiaId, rec.appAccessName);
        if existing > 0 {
          return true;
        }
      }
      historico := historico + [StoredRow(headcount, rec, now)];
      assert historico == Append(old(historico), headcount, rec, now);
      if old(Valid()) {
        AppendPreservesNoDuplicatePending(old(historico), headcount, rec, now);
      }
      ok := true;
    }

    /** One more request of a batch begun on the ledger `ledger0`: the ledger
        and the list of created records each take one more step. */
    method SubmitNext(ghost ledger0: seq<HistoryRow>, ghost requests: seq<RecordData>, rec: RecordData, now: int) returns (ok: bool)
      requires historico == AppendAll(ledger0, headcount, requests, now)
      modifies this
      ensures old(Valid()) ==> Valid()
      ensures ok <==> rec.scotiaId != "" && rec.processAccess != ""
      ensures historico == AppendAll(ledger0, headcount, requests + [rec], now)
      ensures Accepted(requests + [rec]) == Accepted(requests) + (if ok then [rec] else [])
      ensures headcount == old(headcount)
    {
      AppendAllSnoc(ledger0, headcount, requests, rec, now);
      ok := CreateHistoricalRecord(rec, now);
    }

    /** The loop every lifecycle operation ends with: submit each record in
        turn and collect those reported as created. */
    method SubmitAll(recs: seq<RecordData>, now: int) returns (created: seq<RecordData>)
      modifies this
      ensures old(Valid()) ==> Valid()
      ensures historico == AppendAll(old(historico), old(headcount), recs, now)
      ensures created == Accepted(recs)
      ensures headcount == old(headcount)
    {
      ghost var done: seq<RecordData> := [];
      created := [];
      var i := 0;
      while i < |recs|
        invariant 0 <= i <= |recs|
        invariant headcount == old(headcount)
        invariant done == recs[..i]
        invariant historico == AppendAll(old(historico), headcount, done, now)
        invariant created == Accepted(done)
      {
        PrefixSnoc(recs, i);
        var ok := SubmitNext(old(historico), done, recs[i], now);
        created := created + if ok then [recs[i]] else [];
        done := done + [recs[i]];
        i := i + 1;
      }
      assert recs[..i] == recs;
      if old(Valid()) {
        AppendAllPreservesNoDuplicatePending(old(historico), old(headcount), recs, now);
      }
    }

    /** `update_employee_status`: fails when the employee is unknown; otherwise
        activates (clearing the inactivation date) or deactivates as of `now`. */
    method UpdateEmployeeStatus(scotiaId: string, active: bool, now: int) returns (ok: bool)
      modifies this
      ensures ok <==> scotiaId in old(headcount)
      ensures ok ==> headcount == old(headcount)[scotiaId := WithStatus(old(headcount)[scotiaId], active, now)]
      ensures !ok ==> headcount == old(headcount)
      ensures historico == old(historico)
    {
      if scotiaId !in headcount {
        return false;
      }
      headcount := headcount[scotiaId := WithStatus(headcount[scotiaId], active, now)];
      ok := true;
    }

    /** `update_employee_position`: fails when no row has this id; writes the
        position, the unit and the given `unidad_subunidad`, or the default
        one derived from the unit when none is given. */
    method UpdateEmployeePosition(scotiaId: string, newPosition: string, newUnit: string, newUnidad: Option<string>) returns (ok: bool)
      modifies this
      ensures ok <==> scotiaId in old(headcount)
      ensures ok ==> headcount == old(headcount)[scotiaId := old(headcount)[scotiaId].(
        position := newPosition, unit := newUnit,
        unidadSubunidad := if newUnidad.Some? then newUnidad.value else DefaultUnidad(newUnit))]
      ensures !ok ==> headcount == old(headcount)
      ensures historico == old(historico)
    {
      var unidad := if newUnidad.Some? then newUnidad.value else DefaultUnidad(newUnit);
      if scotiaId !in headcount {
        return false;
      }
      headcount := headcount[scotiaId := headcount[scotiaId].(position := newPosition, unit := newUnit, unidadSubunidad := unidad)];
      ok := true;
    }

    /** `process_employee_onboarding`. An unknown employee changes nothing.
        Otherwise the employee is activated and, when a profile field is
        blank, given the form's position and unit; when the position then
        requires no application nothing else happens and the call fails;
        else one pending onboarding grant is submitted per distinct
        normalised triple of the required applications. */
    method ProcessEmployeeOnboarding(scotiaId: string, position: string, unit: string, responsible: string,
                                     subunit: Option<string>, caseId: string, now: int)
      returns (ok: bool, created: seq<RecordData>)
      modifies this
      ensures old(Valid()) ==> Valid()
      ensures scotiaId !in old(headcount) ==> !ok && created == [] && headcount == old(headcount) && historico == old(historico)
      ensures scotiaId in old(headcount) ==>
        headcount == old(headcount)[scotiaId := OnboardedEmployee(old(headcount)[scotiaId], position, unit)]
      ensures scotiaId in old(headcount) ==>
        var apps := AppsByPosition(applications, position, unit, subunit, None);
        var requests := OnboardingRequests(scotiaId, caseId, responsible, apps);
        && (ok <==> apps != [])
        && historico == AppendAll(old(historico), headcount, requests, now)
        && created == Accepted(requests)
    {
      if scotiaId !in headcount {
        return false, [];
      }
      ActivateForOnboarding(scotiaId, position, unit, now);

      var apps := AppsByPosition(applications, position, unit, subunit, None);
      if apps == [] {
        assert OnboardingRequests(scotiaId, caseId, responsible, apps) == [];
        return false, [];
      }

      created := SubmitOnboardingGrants(scotiaId, caseId, responsible, apps, now);
      ok := true;
    }

    /** The directory step of onboarding: the employee is activated and,
        when a profile field is blank, given the form's position and unit. */
    method ActivateForOnboarding(scotiaId: string, position: string, unit: string, now: int)
      requires scotiaId in headcount
      modifies this
      ensures headcount == old(headcount)[scotiaId := OnboardedEmployee(old(headcount)[scotiaId], position, unit)]
      ensures historico == old(historico)
    {
      var employee := headcount[scotiaId];
      var activated := UpdateEmployeeStatus(scotiaId, true, now);
      if NeedsProfile(employee) {
        headcount := headcount[scotiaId := headcount[scotiaId].(position := position, unit := unit, unidadSubunidad := unit)];
      }
    }

    /** The `seen_triplets` loop of onboarding: submit the grant of every
        catalog row whose normalised triple has not been met before. */
    method SubmitOnboardingGrants(scotiaId: string, caseId: string, responsible: string, apps: seq<Application>, now: int)
      returns (created: seq<RecordData>)
      modifies this
      ensures old(Valid()) ==> Valid()
      ensures historico == AppendAll(old(historico), old(headcount), OnboardingRequests(scotiaId, caseId, responsible, apps), now)
      ensures created == Accepted(OnboardingRequests(scotiaId, caseId, responsible, apps))
      ensures headcount == old(headcount)
    {
      var seen: set<Triple> := {};
      ghost var kept: seq<Application> := [];
      ghost var requests: seq<RecordData> := [];
      created := [];
      var i := 0;
      while i < |apps|
        invariant 0 <= i <= |apps|
        invariant headcount == old(headcount)
        invariant kept == FirstPerTriple(apps[..i])
        invariant seen == KeySet(apps[..i], AppTriple)
        invariant requests == GrantRecords(scotiaId, caseId, responsible, kept)
        invariant historico == AppendAll(old(historico), headcount, requests, now)
        invariant created == Accepted(requests)
      {
        var app := apps[i];
        FirstPerTripleStep(apps, i);
        var tkey := TripletKey(app.unit, app.positionRole, app.logicalAccessName);
        assert tkey == AppTriple(app);
        ghost var nextKept := if tkey in seen then kept else kept + [app];
        if tkey !in seen {
          var rec := GrantRecord(scotiaId, caseId, responsible, app);
          GrantRecordsSnoc(scotiaId, caseId, responsible, kept, app);
          var success := SubmitNext(old(historico), requests, rec, now);
          created := created + if success then [rec] else [];
          requests := requests + [rec];
        }
        kept := nextKept;
        seen := seen + {tkey};
        i := i + 1;
      }
      assert apps[..i] == apps;
      if old(Valid()) {
        AppendAllPreservesNoDuplicatePending(old(historico), old(headcount), requests, now);
      }
    }

    /** `process_employee_offboarding`. An unknown employee changes nothing.
        Otherwise every candidate (a closed grant not revoked by a later
        closed offboarding) is revoked or skipped as the catalog status of
        its application says, and the employee is made inactive as of `now`
        and moved out of the unit. */
    method ProcessEmployeeOffboarding(scotiaId: string, responsible: string, caseId: string, now: int)
      returns (ok: bool, created: seq<RecordData>, skipped: seq<string>)
      modifies this
      ensures old(Valid()) ==> Valid()
      ensures ok <==> scotiaId in old(headcount)
      ensures !ok ==> created == [] && skipped == [] && headcount == old(headcount) && historico == old(historico)
      ensures ok ==>
        var plan := PlanOffboarding(applications, OffboardingCandidates(old(historico), scotiaId), scotiaId, caseId, responsible);
        && historico == AppendAll(old(historico), old(headcount), plan.requests, now)
        && created == Accepted(plan.requests)
        && skipped == plan.skipped
        && headcount == old(headcount)[scotiaId := OffboardedEmployee(old(headcount)[scotiaId], now)]
    {
      if scotiaId !in headcount {
        return false, [], [];
      }
      var candidates := OffboardingCandidates(historico, scotiaId);
      created, skipped := SubmitRevocations(candidates, scotiaId, responsible, caseId, now);
      DeactivateForOffboarding(scotiaId, now);
      ok := true;
    }

    /** The directory step of offboarding: the employee is made inactive as
        of `now` and moved out of the unit. */
    method DeactivateForOffboarding(scotiaId: string, now: int)
      requires scotiaId in headcount
      modifies this
      ensures headcount == old(headcount)[scotiaId := OffboardedEmployee(old(headcount)[scotiaId], now)]
      ensures historico == old(historico)
    {
      headcount := headcount[scotiaId := headcount[scotiaId].(activo := false, inactivationDate := Some(now),
                                                              unit := OUT_OF_THE_UNIT, unidadSubunidad := OUT_OF_THE_UNIT)];
    }

    /** The loop of offboarding over its candidates: pass over a blank name,
        skip an application whose catalog status is set and not active, and
        submit a revocation for every other one. */
    method SubmitRevocations(candidates: seq<HistoryRow>, scotiaId: string, responsible: string, caseId: string, now: int)
      returns (created: seq<RecordData>, skipped: seq<string>)
      modifies this
      ensures old(Valid()) ==> Valid()
      ensures var plan := PlanOffboarding(applications, candidates, scotiaId, caseId, responsible);
        && historico == AppendAll(old(historico), old(headcount), plan.requests, now)
        && created == Accepted(plan.requests)
        && skipped == plan.skipped
      ensures headcount == old(headcount)
    {
      ghost var plan := OffboardingPlan([], []);
      created, skipped := [], [];
      var i := 0;
      assert candidates[..0] == [];
      while i < |candidates|
        invariant 0 <= i <= |candidates|
        invariant headcount == old(headcount)
        invariant plan == PlanOffboarding(applications, candidates[..i], scotiaId, caseId, responsible)
        invariant skipped == plan.skipped
        invariant historico == AppendAll(old(historico), headcount, plan.requests, now)
        invariant created == Accepted(plan.requests)
      {
        PlanOffboardingStep(applications, candidates, i, scotiaId, caseId, responsible);
        created, skipped := SubmitCandidate(old(historico), plan, candidates[i], scotiaId, responsible, caseId, now, created, skipped);
        plan := PlanStep(plan, applications, candidates[i], scotiaId, caseId, responsible);
        i := i + 1;
      }
      assert candidates[..i] == candidates;
      if old(Valid()) {
        AppendAllPreservesNoDuplicatePending(old(historico), old(headcount), plan.requests, now);
      }
    }

    /** The body of the offboarding loop for one candidate `c`, once the plan
        `plan` of the candidates before it has been submitted on a batch
        begun on the ledger `ledger0`. */
    method SubmitCandidate(ghost ledger0: seq<HistoryRow>, ghost plan: OffboardingPlan, c: HistoryRow,
                           scotiaId: string, responsible: string, caseId: string, now: int,
                           created: seq<RecordData>, skipped: seq<string>)
      returns (created': seq<RecordData>, skipped': seq<string>)
      requires historico == AppendAll(ledger0, headcount, plan.requests, now)
      requires created == Accepted(plan.requests) && skipped == plan.skipped
      modifies this
      ensures (old(Valid()) ==> Valid()) && headcount == old(headcount)
      ensures var next := PlanStep(plan, applications, c, scotiaId, caseId, responsible);
        && historico == AppendAll(ledger0, headcount, next.requests, now)
        && created' == Accepted(next.requests)
        && skipped' == next.skipped
    {
      created', skipped' := created, skipped;
      var appName := Strip(c.data.appAccessName);
      if appName != "" {
        var accessType := Strip(c.data.processAccess);
        var appInfo := FirstAppByName(applications, appName);
        var accessStatus := if appInfo.Some? then Strip(appInfo.value.accessStatus) else "";
        var normalized := Lower(accessStatus);
        assert accessStatus == CatalogAccessStatus(applications, appName);
        if accessStatus != "" && !(normalized == "activo" || normalized == "active") {
          skipped' := skipped + [appName];
        } else {
          var rec := RevocationRecord(scotiaId, caseId, responsible, accessType, appName);
          var success := SubmitNext(ledger0, plan.requests, rec, now);
          created' := created + if success then [rec] else [];
        }
      }
    }

    /** `process_lateral_movement`. An unknown employee changes nothing.
        Otherwise the held and the required accesses are indexed by
        (normalised name, normalised `unidad_subunidad`); the held keys the new
        position does not require are revoked, the required keys not held are
        granted, revocations first; then the employee takes the new position,
        unit and `unidad_subunidad`. */
    method ProcessLateralMovement(scotiaId: string, newPosition: string, newUnit: string, responsible: string,
                                  newSubunit: Option<string>, caseId: string, now: int)
      returns (ok: bool, created: seq<RecordData>)
      modifies this
      ensures old(Valid()) ==> Valid()
      ensures ok <==> scotiaId in old(headcount)
      ensures !ok ==> created == [] && headcount == old(headcount) && historico == old(historico)
      ensures ok ==>
        var current := CurrentPositionAccess(old(historico), old(headcount), applications, scotiaId);
        var plan := PlanLateral(current, Norm(old(headcount)[scotiaId].unidadSubunidad), applications, newPosition, newUnit, newSubunit);
        var requests := LateralRequests(plan, applications, scotiaId, caseId, responsible);
        && historico == AppendAll(old(historico), old(headcount), requests, now)
        && created == Accepted(requests)
        && headcount == old(headcount)[scotiaId := MovedEmployee(old(headcount)[scotiaId], newPosition, newUnit, newSubunit)]
    {
      if scotiaId !in headcount {
        return false, [];
      }
      var newUnidad := NewUnidad(newUnit, newSubunit);
      var newApps := AppsByPosition(applications, newPosition, newUnidad, newSubunit, None);
      var current := CurrentPositionAccess(historico, headcount, applications, scotiaId);
      var defaultUnidad := Norm(headcount[scotiaId].unidadSubunidad);
      var unidadMap := AppUnidadMap(applications, HeldNames(current));

      var held := BuildIndex(current, (e: CurrentAccess) => Norm(e.appName) != "",
                             (e: CurrentAccess) => HeldKey(e, unidadMap, defaultUnidad),
                             (e: CurrentAccess) => HeldEntry(e, unidadMap, defaultUnidad));
      var required := BuildIndex(newApps, (a: Application) => NameKey(a) != "", RequiredKey, (a: Application) => a);
      assert held == HeldIndex(current, unidadMap, defaultUnidad);
      assert required == RequiredIndex(newApps);

      var toRevoke, maintained := PartitionHeld(held, required);
      var toGrant := SelectWhere(required.keys, k => k !in held.values);
      ghost var plan := PlanLateral(current, defaultUnidad, applications, newPosition, newUnit, newSubunit);
      assert plan == LateralPlan(held, required, Partition(toRevoke, maintained, toGrant));

      var revocations := RevocationRecords(applications, held, toRevoke, scotiaId, caseId, responsible);
      var grants := LateralGrantRecords(required, toGrant, scotiaId, caseId, responsible);
      ghost var h0 := historico;
      var revoked := SubmitAll(revocations, now);
      var granted := SubmitAll(grants, now);
      AppendAllConcat(h0, headcount, revocations, grants, now);
      created := revoked + granted;
      ok := UpdateEmployeePosition(scotiaId, newPosition, newUnit, Some(newUnidad));
    }

    /** `process_flex_staff_assignment`. An unknown employee changes nothing.
        Otherwise every application of the temporary position whose
        normalised name the employee holds neither through a closed position
        grant nor through any flex grant is granted temporarily, with the
        expiration `expiresAt` when a non-zero duration is given; nothing is
        revoked and the directory is left as it is. */
    method ProcessFlexStaffAssignment(scotiaId: string, tempPosition: string, tempUnit: string, durationDays: Option<int>,
                                      expiresAt: int, responsible: string, caseId: string, now: int)
      returns (ok: bool, created: seq<RecordData>)
      modifies this
      ensures old(Valid()) ==> Valid()
      ensures ok <==> scotiaId in old(headcount)
      ensures !ok ==> created == [] && historico == old(historico)
      ensures ok ==>
        var requests := FlexAssignmentRequests(old(historico), applications, scotiaId, caseId, responsible, tempPosition, tempUnit, durationDays, expiresAt);
        && historico == AppendAll(old(historico), old(headcount), requests, now)
        && created == Accepted(requests)
      ensures headcount == old(headcount)
    {
      if scotiaId !in headcount {
        return false, [];
      }
      var held := CollectNormNames(ClosedPositionApps(historico, scotiaId) + AllFlexApps(historico, scotiaId));
      var tempApps := AppsByPositionFlexible(applications, tempPosition, tempUnit);
      var temp := BuildIndex(tempApps, (a: Application) => NameKey(a) != "", NameKey, (a: Application) => a);
      assert temp == TempIndex(tempApps);
      var missing := SelectWhere(temp.keys, k => k !in held);
      var grants := ValuesAt(temp, missing);
      var expiration := FlexExpiration(durationDays, expiresAt);
      var requests := FlexGrantRecords(scotiaId, caseId, responsible, tempPosition, expiration, grants);
      created := SubmitAll(requests, now);
      ok := true;
    }

    /** `process_flex_staff_return`. An unknown employee changes nothing.
        Otherwise one `flex_staff_return` revocation is submitted per closed
        flex access of the employee; the directory is left as it is. */
    method ProcessFlexStaffReturn(scotiaId: string, responsible: string, caseId: string, now: int)
      returns (ok: bool, created: seq<RecordData>)
      modifies this
      ensures old(Valid()) ==> Valid()
      ensures ok <==> scotiaId in old(headcount)
      ensures !ok ==> created == [] && historico == old(historico)
      ensures ok ==>
        var requests := FlexReturnRequests(old(historico), scotiaId, caseId, responsible);
        && historico == AppendAll(old(historico), old(headcount), requests, now)
        && created == Accepted(requests)
      ensures headcount == old(headcount)
    {
      if scotiaId !in headcount {
        return false, [];
      }
      created := SubmitAll(FlexReturnRequests(historico, scotiaId, caseId, responsible), now);
      ok := true;
    }
  }
}
