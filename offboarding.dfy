/** What `process_employee_offboarding` decides: for every closed grant not
    yet revoked by a later closed offboarding, one pending `offboarding`
    record, unless the application's catalog status says it is no longer
    active, in which case its name is reported as skipped. */
module Offboarding {
  import opened Base
  import opened AccessTypes
  import opened Ledger
  import opened Catalog
  import opened Projection

  /** The event description, chosen by the kind of access being revoked. */
  function RevocationDescription(processType: string, app: string): string
  {
    if processType == FLEX_STAFF then "Revocación de acceso temporal (flex staff) para " + app
    else if processType == MANUAL_ACCESS then "Revocación de acceso manual para " + app
    else if processType == ONBOARDING || processType == LATERAL_MOVEMENT then "Revocación de acceso de posición para " + app
    else "Revocación de acceso para " + app
  }

  /** The `record_data` offboarding writes for one application. */
  function RevocationRecord(scotiaId: string, caseId: string, responsible: string, processType: string, app: string): RecordData
  {
    RecordData(scotiaId, caseId, responsible, OFFBOARDING, OUT_OF_THE_COMPANY,
               RevocationDescription(processType, app), responsible + "@empresa.com", app, PENDIENTE, None)
  }

  /** The stripped `access_status` of the first catalog row with exactly this
      name, or "" when the catalog has no such row. */
  function CatalogAccessStatus(catalog: seq<Application>, app: string): string
  {
    match FirstAppByName(catalog, app)
    case None => ""
    case Some(a) => Strip(a.accessStatus)
  }

  /** An empty status, or "activo"/"active" in any case, lets the revocation through. */
  predicate AllowsRevocation(status: string)
  {
    status == "" || Lower(status) == "activo" || Lower(status) == "active"
  }

  /** A candidate offboarding writes a record for. */
  predicate Revocable(catalog: seq<Application>, row: HistoryRow)
  {
    Strip(row.data.appAccessName) != "" && AllowsRevocation(CatalogAccessStatus(catalog, Strip(row.data.appAccessName)))
  }

  /** A candidate offboarding reports as skipped. */
  predicate Skipped(catalog: seq<Application>, row: HistoryRow)
  {
    Strip(row.data.appAccessName) != "" && !AllowsRevocation(CatalogAccessStatus(catalog, Strip(row.data.appAccessName)))
  }

  /** The stripped names of the rows that pass `keep`, as a set. */
  function NamesWhere(rows: seq<HistoryRow>, keep: HistoryRow -> bool): set<string>
    decreases |rows|
  {
    if rows == [] then {}
    else
      var last := rows[|rows| - 1];
      NamesWhere(rows[..|rows| - 1], keep) + (if keep(last) then {Strip(last.data.appAccessName)} else {})
  }

  /** A name is in the set exactly when some row passing `keep` carries it. */
  lemma {:induction false} NamesWhereMeaning(rows: seq<HistoryRow>, keep: HistoryRow -> bool, n: string)
    ensures n in NamesWhere(rows, keep) <==> exists c :: c in rows && keep(c) && Strip(c.data.appAccessName) == n
    decreases |rows|
  {
    if rows != [] {
      var front := rows[..|rows| - 1];
      var last := rows[|rows| - 1];
      assert forall c :: c in rows <==> c in front || c == last;
      NamesWhereMeaning(front, keep, n);
    }
  }

  /** No row passes `keep`: no name. */
  lemma {:induction false} NamesWhereNone(rows: seq<HistoryRow>, keep: HistoryRow -> bool)
    requires forall c :: c in rows ==> !keep(c)
    ensures NamesWhere(rows, keep) == {}
    decreases |rows|
  {
    if rows != [] {
      assert rows[|rows| - 1] in rows;
      assert forall c :: c in rows[..|rows| - 1] ==> c in rows;
      NamesWhereNone(rows[..|rows| - 1], keep);
    }
  }

  function RevocableNames(catalog: seq<Application>, candidates: seq<HistoryRow>): set<string>
  {
    NamesWhere(candidates, c => Revocable(catalog, c))
  }

  function SkippedNames(catalog: seq<Application>, candidates: seq<HistoryRow>): set<string>
  {
    NamesWhere(candidates, c => Skipped(catalog, c))
  }

  /** One more candidate: its name joins the revoked names when it is
      revocable, and the skipped names when it is skipped. */
  lemma CandidateNamesSnoc(catalog: seq<Application>, candidates: seq<HistoryRow>)
    requires candidates != []
    ensures var c := candidates[|candidates| - 1];
      && RevocableNames(catalog, candidates)
         == RevocableNames(catalog, candidates[..|candidates| - 1]) + (if Revocable(catalog, c) then {Strip(c.data.appAccessName)} else {})
      && SkippedNames(catalog, candidates)
         == SkippedNames(catalog, candidates[..|candidates| - 1]) + (if Skipped(catalog, c) then {Strip(c.data.appAccessName)} else {})
  {
  }

  function RequestedApps(requests: seq<RecordData>): set<string>
  {
    set r | r in requests :: r.appAccessName
  }

  lemma RequestedAppsOfSnoc(requests: seq<RecordData>, r: RecordData)
    ensures RequestedApps(requests + [r]) == RequestedApps(requests) + {r.appAccessName}
  {
    assert forall x :: x in requests + [r] <==> x in requests || x == r;
  }

  /** A pending offboarding record of employee `scotiaId`, moving the
      application out of the company, with the responsible's ticket email. */
  predicate IsRevocationFor(r: RecordData, scotiaId: string, responsible: string)
  {
    && r.scotiaId == scotiaId && r.processAccess == OFFBOARDING && r.status == PENDIENTE
    && r.subunit == OUT_OF_THE_COMPANY && r.ticketEmail == responsible + "@empresa.com"
  }

  /** The records offboarding submits and the names it skips. */
  datatype OffboardingPlan = OffboardingPlan(requests: seq<RecordData>, skipped: seq<string>)

  /** The loop over the candidates: a blank name is passed over, a name whose
      catalog status is not active is skipped, every other one is revoked. */
  function PlanOffboarding(catalog: seq<Application>, candidates: seq<HistoryRow>, scotiaId: string, caseId: string, responsible: string): (p: OffboardingPlan)
    ensures |p.requests| + |p.skipped| <= |candidates|
    ensures forall r :: r in p.requests ==> IsRevocationFor(r, scotiaId, responsible)
    decreases |candidates|
  {
    if candidates == [] then OffboardingPlan([], [])
    else
      var front := candidates[..|candidates| - 1];
      var c := candidates[|candidates| - 1];
      var p := PlanOffboarding(catalog, front, scotiaId, caseId, responsible);
      var name := Strip(c.data.appAccessName);
      if name == "" then p
      else if !AllowsRevocation(CatalogAccessStatus(catalog, name)) then
        OffboardingPlan(p.requests, p.skipped + [name])
      else
        OffboardingPlan(p.requests + [RevocationRecord(scotiaId, caseId, responsible, Strip(c.data.processAccess), name)], p.skipped)
  }

  /** Offboarding asks to revoke exactly the names of the revocable
      candidates, and reports as skipped exactly the names of the others. */
  lemma {:induction false} PlanOffboardingNames(catalog: seq<Application>, candidates: seq<HistoryRow>, scotiaId: string, caseId: string, responsible: string)
    ensures var p := PlanOffboarding(catalog, candidates, scotiaId, caseId, responsible);
      && RequestedApps(p.requests) == RevocableNames(catalog, candidates)
      && (forall n :: n in p.skipped <==> n in SkippedNames(catalog, candidates))
    decreases |candidates|
  {
    if candidates != [] {
      var front := candidates[..|candidates| - 1];
      var c := candidates[|candidates| - 1];
      PlanOffboardingNames(catalog, front, scotiaId, caseId, responsible);
      var p := PlanOffboarding(catalog, front, scotiaId, caseId, responsible);
      assert PlanOffboarding(catalog, candidates, scotiaId, caseId, responsible) == PlanStep(p, catalog, c, scotiaId, caseId, responsible);
      CandidateNamesSnoc(catalog, candidates);
      var q := PlanOffboarding(catalog, candidates, scotiaId, caseId, responsible);
      var name := Strip(c.data.appAccessName);
      PlanStepParts(p, catalog, c, scotiaId, caseId, responsible);
      if Revocable(catalog, c) {
        RequestedAppsOfSnoc(p.requests, RevocationRecord(scotiaId, caseId, responsible, Strip(c.data.processAccess), name));
      } else {
        assert q.requests == p.requests;
      }
      if Skipped(catalog, c) {
        assert forall n :: n in q.skipped <==> n in p.skipped || n == name;
      } else {
        assert q.skipped == p.skipped;
      }
    }
  }

  /** One more candidate appends its revocation when it is revocable, and its
      name to the skipped ones when it is skipped. */
  lemma PlanStepParts(p: OffboardingPlan, catalog: seq<Application>, c: HistoryRow, scotiaId: string, caseId: string, responsible: string)
    ensures var q := PlanStep(p, catalog, c, scotiaId, caseId, responsible);
      var name := Strip(c.data.appAccessName);
      && q.requests == p.requests + (if Revocable(catalog, c) then [RevocationRecord(scotiaId, caseId, responsible, Strip(c.data.processAccess), name)] else [])
      && q.skipped == p.skipped + (if Skipped(catalog, c) then [name] else [])
  {
    assert p.requests + [] == p.requests;
    assert p.skipped + [] == p.skipped;
  }

  /** What the loop does with one candidate `c`, given the plan so far. */
  function PlanStep(p: OffboardingPlan, catalog: seq<Application>, c: HistoryRow, scotiaId: string, caseId: string, responsible: string): OffboardingPlan
  {
    var name := Strip(c.data.appAccessName);
    if name == "" then p
    else if !AllowsRevocation(CatalogAccessStatus(catalog, name)) then OffboardingPlan(p.requests, p.skipped + [name])
    else OffboardingPlan(p.requests + [RevocationRecord(scotiaId, caseId, responsible, Strip(c.data.processAccess), name)], p.skipped)
  }

  /** One more candidate, as the loop sees it. */
  lemma PlanOffboardingStep(catalog: seq<Application>, candidates: seq<HistoryRow>, i: nat, scotiaId: string, caseId: string, responsible: string)
    requires i < |candidates|
    ensures PlanOffboarding(catalog, candidates[..i + 1], scotiaId, caseId, responsible)
         == PlanStep(PlanOffboarding(catalog, candidates[..i], scotiaId, caseId, responsible), catalog, candidates[i], scotiaId, caseId, responsible)
  {
    assert candidates[..i + 1][..i] == candidates[..i];
  }

  /** The directory row after offboarding: inactive since `now`, and moved out of its unit. */
  function OffboardedEmployee(e: Employee, now: int): Employee
  {
    e.(activo := false, inactivationDate := Some(now), unit := OUT_OF_THE_UNIT, unidadSubunidad := OUT_OF_THE_UNIT)
  }

  // ---------------------------------------------------------------------
  // Running offboarding twice
  // ---------------------------------------------------------------------

  /** The rows `create_historical_record` inserts for `recs` when none is refused. */
  function InsertedRows(directory: map<string, Employee>, recs: seq<RecordData>, now: int): (rows: seq<HistoryRow>)
    ensures |rows| == |recs| && forall i :: 0 <= i < |recs| ==> rows[i] == StoredRow(directory, recs[i], now)
  {
    seq(|recs|, i requires 0 <= i < |recs| => StoredRow(directory, recs[i], now))
  }

  /** One more record: one more inserted row. */
  lemma InsertedRowsSnoc(directory: map<string, Employee>, recs: seq<RecordData>, r: RecordData, now: int)
    ensures InsertedRows(directory, recs + [r], now) == InsertedRows(directory, recs, now) + [StoredRow(directory, r, now)]
  {
  }

  /** An offboarding record with an employee id is always appended. */
  lemma RevocationIsAppended(ledger: seq<HistoryRow>, directory: map<string, Employee>, r: RecordData, now: int)
    requires r.scotiaId != "" && r.processAccess == OFFBOARDING
    ensures Append(ledger, directory, r, now) == ledger + [StoredRow(directory, r, now)]
  {
    assert CheckAppend(ledger, r).Inserted?;
  }

  /** The inductive step: if the batch so far only inserted, so does one more revocation. */
  lemma RevocationStep(ledger: seq<HistoryRow>, directory: map<string, Employee>, recs: seq<RecordData>, r: RecordData, now: int)
    requires r.scotiaId != "" && r.processAccess == OFFBOARDING
    requires AppendAll(ledger, directory, recs, now) == ledger + InsertedRows(directory, recs, now)
    ensures AppendAll(ledger, directory, recs + [r], now) == ledger + InsertedRows(directory, recs + [r], now)
  {
    AppendAllSnoc(ledger, directory, recs, r, now);
    var before := ledger + InsertedRows(directory, recs, now);
    var row := StoredRow(directory, r, now);
    RevocationIsAppended(before, directory, r, now);
    InsertedRowsSnoc(directory, recs, r, now);
    assert before + [row] == ledger + (InsertedRows(directory, recs, now) + [row]);
  }

  /** Offboarding records bypass the pending check: every one is inserted. */
  lemma {:induction false} RevocationsAlwaysInserted(ledger: seq<HistoryRow>, directory: map<string, Employee>, recs: seq<RecordData>, now: int)
    requires forall r :: r in recs ==> r.scotiaId != "" && r.processAccess == OFFBOARDING
    ensures AppendAll(ledger, directory, recs, now) == ledger + InsertedRows(directory, recs, now)
    decreases |recs|
  {
    if recs != [] {
      var front := recs[..|recs| - 1];
      var r := recs[|recs| - 1];
      assert recs == front + [r];
      forall x | x in front
        ensures x.scotiaId != "" && x.processAccess == OFFBOARDING
      {
        assert x in recs;
      }
      assert r in recs;
      RevocationsAlwaysInserted(ledger, directory, front, now);
      RevocationStep(ledger, directory, front, r, now);
    } else {
      assert ledger + [] == ledger;
    }
  }

  /** Running offboarding again before its revocations are closed finds the
      same candidates and inserts every revocation a second time: offboarding
      is not idempotent while its own records are pending. */
  lemma RerunBeforeClosingRepeats(ledger: seq<HistoryRow>, directory: map<string, Employee>, catalog: seq<Application>,
                                  scotiaId: string, caseId: string, responsible: string, now: int, later: int)
    requires scotiaId != ""
    ensures var plan := PlanOffboarding(catalog, OffboardingCandidates(ledger, scotiaId), scotiaId, caseId, responsible);
      var once := AppendAll(ledger, directory, plan.requests, now);
      && OffboardingCandidates(once, scotiaId) == OffboardingCandidates(ledger, scotiaId)
      && |AppendAll(once, directory, plan.requests, later)| == |once| + |plan.requests|
  {
    var plan := PlanOffboarding(catalog, OffboardingCandidates(ledger, scotiaId), scotiaId, caseId, responsible);
    assert forall r :: r in plan.requests ==> r.scotiaId != "" && r.processAccess == OFFBOARDING && r.status == PENDIENTE;
    RevocationsAlwaysInserted(ledger, directory, plan.requests, now);
    var extra := InsertedRows(directory, plan.requests, now);
    forall x | x in extra
      ensures x.data.status == PENDIENTE
    {
      var i :| 0 <= i < |extra| && extra[i] == x;
      assert plan.requests[i] in plan.requests;
    }
    CandidatesIgnorePendingRows(ledger, extra, scotiaId, ledger);
    var once := ledger + extra;
    RevocationsAlwaysInserted(once, directory, plan.requests, later);
    assert |InsertedRows(directory, plan.requests, later)| == |plan.requests|;
  }

  /** Every revocable candidate of the first run is revoked by a closed row. */
  lemma RevocableIsRevokedOnceClosed(ledger: seq<HistoryRow>, catalog: seq<Application>, scotiaId: string,
                                     caseId: string, responsible: string, closed: seq<HistoryRow>, now: int, c: HistoryRow)
    requires c in OffboardingCandidates(ledger, scotiaId)
    requires SpaceBounded(c.data.appAccessName) && c.recordDate <= now
    requires forall r :: r in PlanOffboarding(catalog, OffboardingCandidates(ledger, scotiaId), scotiaId, caseId, responsible).requests ==>
      exists x :: x in closed && x.data.scotiaId == scotiaId && x.data.appAccessName == r.appAccessName
        && x.data.processAccess == OFFBOARDING && IsClosedStatus(x.data.status) && x.recordDate >= now
    ensures Revocable(catalog, c) ==> RevokedSince(ledger + closed, scotiaId, c.data.appAccessName, c.recordDate)
  {
    var cands := OffboardingCandidates(ledger, scotiaId);
    var plan := PlanOffboarding(catalog, cands, scotiaId, caseId, responsible);
    PlanOffboardingNames(catalog, cands, scotiaId, caseId, responsible);
    if Revocable(catalog, c) {
      StripOfStripped(c.data.appAccessName);
      NamesWhereMeaning(cands, c => Revocable(catalog, c), c.data.appAccessName);
      assert c.data.appAccessName in RevocableNames(catalog, cands);
      var r :| r in plan.requests && r.appAccessName == c.data.appAccessName;
      var x :| x in closed && x.data.scotiaId == scotiaId && x.data.appAccessName == r.appAccessName
        && x.data.processAccess == OFFBOARDING && IsClosedStatus(x.data.status) && x.recordDate >= now;
      assert x in ledger + closed;
    }
  }

  /** Once every revocation of a run has a closed offboarding row dated no
      earlier than the grants it revokes, a new run writes nothing: the only
      candidates left are blank names and applications it skips. */
  lemma RerunAfterClosingRequestsNothing(ledger: seq<HistoryRow>, catalog: seq<Application>, scotiaId: string,
                                         caseId: string, responsible: string, caseId2: string, responsible2: string,
                                         closed: seq<HistoryRow>, now: int)
    requires forall c :: c in OffboardingCandidates(ledger, scotiaId) ==> SpaceBounded(c.data.appAccessName) && c.recordDate <= now
    requires forall x :: x in closed ==> x.data.processAccess == OFFBOARDING
    requires forall r :: r in PlanOffboarding(catalog, OffboardingCandidates(ledger, scotiaId), scotiaId, caseId, responsible).requests ==>
      exists x :: x in closed && x.data.scotiaId == scotiaId && x.data.appAccessName == r.appAccessName
        && x.data.processAccess == OFFBOARDING && IsClosedStatus(x.data.status) && x.recordDate >= now
    ensures PlanOffboarding(catalog, OffboardingCandidates(ledger + closed, scotiaId), scotiaId, caseId2, responsible2).requests == []
  {
    var cands := OffboardingCandidates(ledger, scotiaId);
    var cands2 := OffboardingCandidates(ledger + closed, scotiaId);
    forall c | c in cands2
      ensures !Revocable(catalog, c)
    {
      assert c.data.processAccess != OFFBOARDING;
      assert c in ledger;
      RevokedSinceGrows(ledger, closed, scotiaId, c.data.appAccessName, c.recordDate);
      assert c in cands;
      RevocableIsRevokedOnceClosed(ledger, catalog, scotiaId, caseId, responsible, closed, now, c);
    }
    NamesWhereNone(cands2, c => Revocable(catalog, c));
    var plan2 := PlanOffboarding(catalog, cands2, scotiaId, caseId2, responsible2);
    PlanOffboardingNames(catalog, cands2, scotiaId, caseId2, responsible2);
    assert plan2.requests == [] || plan2.requests[0].appAccessName in RequestedApps(plan2.requests);
  }

  // ---------------------------------------------------------------------
  // Candidates that also count requested revocations
  // ---------------------------------------------------------------------

  /** An offboarding of `app` dated no earlier than `since` that is closed or
      still pending: a revocation already done or already asked for. Names
      are compared stripped, as offboarding writes them. */
  predicate RevokedOrRequestedSince(ledger: seq<HistoryRow>, scotiaId: string, app: string, since: int)
  {
    exists x :: x in ledger && x.data.scotiaId == scotiaId && Strip(x.data.appAccessName) == Strip(app) && x.data.processAccess == OFFBOARDING
      && (IsClosedStatus(x.data.status) || x.data.status == PENDIENTE) && x.recordDate >= since
  }

  /** The candidate test that keeps the promise to revoke only what an
      earlier offboarding has not already revoked: a pending offboarding
      counts as a revocation too. */
  predicate IsRequestAwareCandidate(ledger: seq<HistoryRow>, scotiaId: string, row: HistoryRow)
  {
    && row.data.scotiaId == scotiaId && IsClosedStatus(row.data.status)
    && (row.data.processAccess == ONBOARDING || row.data.processAccess == LATERAL_MOVEMENT
        || row.data.processAccess == FLEX_STAFF || row.data.processAccess == MANUAL_ACCESS)
    && !RevokedOrRequestedSince(ledger, scotiaId, row.data.appAccessName, row.recordDate)
  }

  function RequestAwareCandidatesAmong(ledger: seq<HistoryRow>, scotiaId: string, rows: seq<HistoryRow>): (r: seq<HistoryRow>)
    ensures forall x :: x in r <==> x in rows && IsRequestAwareCandidate(ledger, scotiaId, x)
    decreases |rows|
  {
    if rows == [] then []
    else
      var last := rows[|rows| - 1];
      assert forall x :: x in rows <==> x in rows[..|rows| - 1] || x == last;
      RequestAwareCandidatesAmong(ledger, scotiaId, rows[..|rows| - 1]) + (if IsRequestAwareCandidate(ledger, scotiaId, last) then [last] else [])
  }

  /** The corrected candidate query over the whole ledger. */
  function RequestAwareCandidates(ledger: seq<HistoryRow>, scotiaId: string): (r: seq<HistoryRow>)
    ensures forall x :: x in r <==> x in ledger && IsRequestAwareCandidate(ledger, scotiaId, x)
  {
    RequestAwareCandidatesAmong(ledger, scotiaId, ledger)
  }

  /** The corrected query only ever drops candidates of the query as written,
      and drops none while no offboarding is pending and no name carries
      surrounding whitespace. */
  lemma RequestAwareCandidatesRefine(ledger: seq<HistoryRow>, scotiaId: string)
    ensures forall x :: x in RequestAwareCandidates(ledger, scotiaId) ==> x in OffboardingCandidates(ledger, scotiaId)
    ensures (forall x :: x in ledger ==> SpaceBounded(x.data.appAccessName)) &&
            (forall x :: x in ledger && x.data.processAccess == OFFBOARDING ==> x.data.status != PENDIENTE) ==>
      forall x :: x in OffboardingCandidates(ledger, scotiaId) ==> x in RequestAwareCandidates(ledger, scotiaId)
  {
    if forall x :: x in ledger ==> SpaceBounded(x.data.appAccessName) {
      forall x | x in ledger
        ensures Strip(x.data.appAccessName) == x.data.appAccessName
      {
        StripOfStripped(x.data.appAccessName);
      }
    }
  }

  /** Rows added to either end of the ledger never withdraw a revocation or a request. */
  lemma RevokedOrRequestedSinceGrows(ledger: seq<HistoryRow>, extra: seq<HistoryRow>, scotiaId: string, app: string, since: int)
    ensures RevokedOrRequestedSince(ledger, scotiaId, app, since) ==>
      RevokedOrRequestedSince(ledger + extra, scotiaId, app, since) && RevokedOrRequestedSince(extra + ledger, scotiaId, app, since)
  {
    if RevokedOrRequestedSince(ledger, scotiaId, app, since) {
      var x :| x in ledger && x.data.scotiaId == scotiaId && Strip(x.data.appAccessName) == Strip(app) && x.data.processAccess == OFFBOARDING
        && (IsClosedStatus(x.data.status) || x.data.status == PENDIENTE) && x.recordDate >= since;
      assert x in ledger + extra && x in extra + ledger;
    }
  }

  /** The inserted rows carry the process type of their records. */
  lemma InsertedRowsKeepProcess(directory: map<string, Employee>, recs: seq<RecordData>, now: int)
    ensures forall x :: x in InsertedRows(directory, recs, now) ==> exists r :: r in recs && x.data.processAccess == r.processAccess
  {
    var rows := InsertedRows(directory, recs, now);
    forall x | x in rows
      ensures exists r :: r in recs && x.data.processAccess == r.processAccess
    {
      var i :| 0 <= i < |rows| && rows[i] == x;
      assert recs[i] in recs;
    }
  }

  /** A candidate after offboarding rows were added was a candidate before. */
  lemma RerunCandidateWasCandidate(ledger: seq<HistoryRow>, extra: seq<HistoryRow>, scotiaId: string, c: HistoryRow)
    requires forall x :: x in extra ==> x.data.processAccess == OFFBOARDING
    requires c in RequestAwareCandidates(ledger + extra, scotiaId)
    ensures c in RequestAwareCandidates(ledger, scotiaId)
  {
    RevokedOrRequestedSinceGrows(ledger, extra, scotiaId, c.data.appAccessName, c.recordDate);
  }

  /** A requested name is the name of the request at some position. */
  lemma RequestedAt(requests: seq<RecordData>, n: string) returns (i: nat)
    requires n in RequestedApps(requests)
    ensures i < |requests| && requests[i].appAccessName == n
  {
    var r :| r in requests && r.appAccessName == n;
    i :| i < |requests| && requests[i] == r;
  }

  /** A revocable candidate of a run is requested by that run's own rows. */
  lemma RevocableIsRequested(ledger: seq<HistoryRow>, directory: map<string, Employee>, catalog: seq<Application>, scotiaId: string,
                             caseId: string, responsible: string, now: int, c: HistoryRow)
    requires c in RequestAwareCandidates(ledger, scotiaId) && c.recordDate <= now
    ensures var plan := PlanOffboarding(catalog, RequestAwareCandidates(ledger, scotiaId), scotiaId, caseId, responsible);
      Revocable(catalog, c) ==> RevokedOrRequestedSince(InsertedRows(directory, plan.requests, now), scotiaId, c.data.appAccessName, c.recordDate)
  {
    var cands := RequestAwareCandidates(ledger, scotiaId);
    var plan := PlanOffboarding(catalog, cands, scotiaId, caseId, responsible);
    var extra := InsertedRows(directory, plan.requests, now);
    PlanOffboardingNames(catalog, cands, scotiaId, caseId, responsible);
    if Revocable(catalog, c) {
      var name := Strip(c.data.appAccessName);
      StripIdempotent(c.data.appAccessName);
      NamesWhereMeaning(cands, c => Revocable(catalog, c), name);
      var i := RequestedAt(plan.requests, name);
      var r := plan.requests[i];
      assert r in plan.requests;
      var x := extra[i];
      assert x == StoredRow(directory, r, now);
      assert x.data.scotiaId == scotiaId && x.data.processAccess == OFFBOARDING && x.data.status == PENDIENTE;
      assert x in extra;
    }
  }

  /** After a run, no candidate of the corrected query is revocable any more. */
  lemma RequestAwareRerunRevokesNone(ledger: seq<HistoryRow>, directory: map<string, Employee>, catalog: seq<Application>,
                                     scotiaId: string, caseId: string, responsible: string, now: int)
    requires scotiaId != ""
    requires forall c :: c in RequestAwareCandidates(ledger, scotiaId) ==> c.recordDate <= now
    ensures var plan := PlanOffboarding(catalog, RequestAwareCandidates(ledger, scotiaId), scotiaId, caseId, responsible);
      forall c :: c in RequestAwareCandidates(ledger + InsertedRows(directory, plan.requests, now), scotiaId) ==> !Revocable(catalog, c)
  {
    var plan := PlanOffboarding(catalog, RequestAwareCandidates(ledger, scotiaId), scotiaId, caseId, responsible);
    var extra := InsertedRows(directory, plan.requests, now);
    InsertedRowsKeepProcess(directory, plan.requests, now);
    forall c | c in RequestAwareCandidates(ledger + extra, scotiaId)
      ensures !Revocable(catalog, c)
    {
      RerunCandidateWasCandidate(ledger, extra, scotiaId, c);
      RevocableIsRequested(ledger, directory, catalog, scotiaId, caseId, responsible, now, c);
      RevokedOrRequestedSinceGrows(extra, ledger, scotiaId, c.data.appAccessName, c.recordDate);
    }
  }

  /** With the corrected query, offboarding run again straight away, before
      any of its revocations is closed, requests nothing: every revocable
      candidate of the first run now has a pending offboarding. */
  lemma RequestAwareRerunRequestsNothing(ledger: seq<HistoryRow>, directory: map<string, Employee>, catalog: seq<Application>,
                                         scotiaId: string, caseId: string, responsible: string, caseId2: string, responsible2: string, now: int)
    requires scotiaId != ""
    requires forall c :: c in RequestAwareCandidates(ledger, scotiaId) ==> c.recordDate <= now
    ensures var plan := PlanOffboarding(catalog, RequestAwareCandidates(ledger, scotiaId), scotiaId, caseId, responsible);
      var once := AppendAll(ledger, directory, plan.requests, now);
      PlanOffboarding(catalog, RequestAwareCandidates(once, scotiaId), scotiaId, caseId2, responsible2).requests == []
  {
    var plan := PlanOffboarding(catalog, RequestAwareCandidates(ledger, scotiaId), scotiaId, caseId, responsible);
    RevocationsAlwaysInserted(ledger, directory, plan.requests, now);
    var cands2 := RequestAwareCandidates(ledger + InsertedRows(directory, plan.requests, now), scotiaId);
    RequestAwareRerunRevokesNone(ledger, directory, catalog, scotiaId, caseId, responsible, now);
    NamesWhereNone(cands2, c => Revocable(catalog, c));
    var plan2 := PlanOffboarding(catalog, cands2, scotiaId, caseId2, responsible2);
    PlanOffboardingNames(catalog, cands2, scotiaId, caseId2, responsible2);
    assert plan2.requests == [] || plan2.requests[0].appAccessName in RequestedApps(plan2.requests);
  }

  /** With the corrected query, every revocable candidate of a run is revoked
      or requested once that run's revocations are closed, whatever
      whitespace surrounds its name. */
  lemma RequestAwareRevocableIsRevokedOnceClosed(ledger: seq<HistoryRow>, catalog: seq<Application>, scotiaId: string,
                                                 caseId: string, responsible: string, closed: seq<HistoryRow>, now: int, c: HistoryRow)
    requires c in RequestAwareCandidates(ledger, scotiaId) && c.recordDate <= now
    requires forall r :: r in PlanOffboarding(catalog, RequestAwareCandidates(ledger, scotiaId), scotiaId, caseId, responsible).requests ==>
      exists x :: x in closed && x.data.scotiaId == scotiaId && x.data.appAccessName == r.appAccessName
        && x.data.processAccess == OFFBOARDING && IsClosedStatus(x.data.status) && x.recordDate >= now
    ensures Revocable(catalog, c) ==> RevokedOrRequestedSince(ledger + closed, scotiaId, c.data.appAccessName, c.recordDate)
  {
    var cands := RequestAwareCandidates(ledger, scotiaId);
    var plan := PlanOffboarding(catalog, cands, scotiaId, caseId, responsible);
    PlanOffboardingNames(catalog, cands, scotiaId, caseId, responsible);
    if Revocable(catalog, c) {
      var name := Strip(c.data.appAccessName);
      StripIdempotent(c.data.appAccessName);
      NamesWhereMeaning(cands, c => Revocable(catalog, c), name);
      assert name in RevocableNames(catalog, cands);
      var r :| r in plan.requests && r.appAccessName == name;
      var x :| x in closed && x.data.scotiaId == scotiaId && x.data.appAccessName == r.appAccessName
        && x.data.processAccess == OFFBOARDING && IsClosedStatus(x.data.status) && x.recordDate >= now;
      assert x in ledger + closed;
    }
  }

  /** With the corrected query, once every revocation of a run is closed, a
      new run writes nothing, whatever whitespace surrounds the names. */
  lemma RequestAwareRerunAfterClosingRequestsNothing(ledger: seq<HistoryRow>, catalog: seq<Application>, scotiaId: string,
                                                     caseId: string, responsible: string, caseId2: string, responsible2: string,
                                                     closed: seq<HistoryRow>, now: int)
    requires forall c :: c in RequestAwareCandidates(ledger, scotiaId) ==> c.recordDate <= now
    requires forall x :: x in closed ==> x.data.processAccess == OFFBOARDING
    requires forall r :: r in PlanOffboarding(catalog, RequestAwareCandidates(ledger, scotiaId), scotiaId, caseId, responsible).requests ==>
      exists x :: x in closed && x.data.scotiaId == scotiaId && x.data.appAccessName == r.appAccessName
        && x.data.processAccess == OFFBOARDING && IsClosedStatus(x.data.status) && x.recordDate >= now
    ensures PlanOffboarding(catalog, RequestAwareCandidates(ledger + closed, scotiaId), scotiaId, caseId2, responsible2).requests == []
  {
    var cands2 := RequestAwareCandidates(ledger + closed, scotiaId);
    forall c | c in cands2
      ensures !Revocable(catalog, c)
    {
      RerunCandidateWasCandidate(ledger, closed, scotiaId, c);
      RequestAwareRevocableIsRevokedOnceClosed(ledger, catalog, scotiaId, caseId, responsible, closed, now, c);
    }
    NamesWhereNone(cands2, c => Revocable(catalog, c));
    var plan2 := PlanOffboarding(catalog, cands2, scotiaId, caseId2, responsible2);
    PlanOffboardingNames(catalog, cands2, scotiaId, caseId2, responsible2);
    assert plan2.requests == [] || plan2.requests[0].appAccessName in RequestedApps(plan2.requests);
  }
}
