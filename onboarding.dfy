/** What `process_employee_onboarding` decides: the catalog rows it grants
    (one per normalised (unit, position_role, logical_access_name) triple, the
    first one met), the record it writes for each, and the directory row it
    leaves behind. */
module Onboarding {
  import opened Base
  import opened AccessTypes
  import opened Ledger

  /** The dedupe key onboarding builds for a catalog row (from its `unit`
      column, with the normalisation of `_triplet_key`). */
  function AppTriple(a: Application): Triple
  {
    TripletKey(a.unit, a.positionRole, a.logicalAccessName)
  }

  /** The rows the `seen_triplets` loop lets through: the first row of every triple, in catalog order. */
  function FirstPerTriple(apps: seq<Application>): (r: seq<Application>)
    ensures forall i, j :: 0 <= i < j < |r| ==> AppTriple(r[i]) != AppTriple(r[j])
    ensures forall a :: a in r ==> a in apps
    ensures KeySet(r, AppTriple) == KeySet(apps, AppTriple)
    ensures |r| <= |apps|
  {
    FirstPerKey(apps, AppTriple)
  }

  /** One more catalog row: it is kept exactly when its triple is new, and
      its triple joins the ones seen. */
  lemma FirstPerTripleStep(apps: seq<Application>, i: nat)
    requires i < |apps|
    ensures KeySet(apps[..i + 1], AppTriple) == KeySet(apps[..i], AppTriple) + {AppTriple(apps[i])}
    ensures AppTriple(apps[i]) in KeySet(apps[..i], AppTriple) ==> FirstPerTriple(apps[..i + 1]) == FirstPerTriple(apps[..i])
    ensures AppTriple(apps[i]) !in KeySet(apps[..i], AppTriple) ==> FirstPerTriple(apps[..i + 1]) == FirstPerTriple(apps[..i]) + [apps[i]]
  {
    assert apps[..i + 1] == apps[..i] + [apps[i]];
    FirstPerKeySnoc(apps[..i], apps[i], AppTriple);
  }

  /** The `record_data` onboarding writes for one catalog row. */
  function GrantRecord(scotiaId: string, caseId: string, responsible: string, a: Application): RecordData
  {
    RecordData(scotiaId, caseId, responsible, ONBOARDING, a.subunit,
               "Otorgamiento de acceso para " + a.logicalAccessName, a.pathEmailUrl,
               a.logicalAccessName, PENDIENTE, None)
  }

  function GrantRecords(scotiaId: string, caseId: string, responsible: string, apps: seq<Application>): (r: seq<RecordData>)
    ensures |r| == |apps| && forall i :: 0 <= i < |apps| ==> r[i] == GrantRecord(scotiaId, caseId, responsible, apps[i])
  {
    seq(|apps|, i requires 0 <= i < |apps| => GrantRecord(scotiaId, caseId, responsible, apps[i]))
  }

  lemma GrantRecordsSnoc(scotiaId: string, caseId: string, responsible: string, apps: seq<Application>, a: Application)
    ensures GrantRecords(scotiaId, caseId, responsible, apps + [a]) == GrantRecords(scotiaId, caseId, responsible, apps) + [GrantRecord(scotiaId, caseId, responsible, a)]
  {
    var l := GrantRecords(scotiaId, caseId, responsible, apps + [a]);
    var r := GrantRecords(scotiaId, caseId, responsible, apps) + [GrantRecord(scotiaId, caseId, responsible, a)];
    assert forall i :: 0 <= i < |l| ==> l[i] == r[i];
  }

  /** Every record onboarding submits, in order: one pending onboarding grant
      per distinct triple of the required applications. */
  function OnboardingRequests(scotiaId: string, caseId: string, responsible: string, apps: seq<Application>): (r: seq<RecordData>)
    ensures |r| <= |apps|
    ensures forall x :: x in r ==> x.processAccess == ONBOARDING && x.status == PENDIENTE && x.scotiaId == scotiaId
    ensures forall x :: x in r ==> exists a :: a in apps && x == GrantRecord(scotiaId, caseId, responsible, a)
  {
    var kept := FirstPerTriple(apps);
    var r := GrantRecords(scotiaId, caseId, responsible, kept);
    assert forall x :: x in r ==> exists i :: 0 <= i < |kept| && x == GrantRecord(scotiaId, caseId, responsible, kept[i]);
    r
  }

  /** The profile fields onboarding fills in when any of them is blank. */
  predicate NeedsProfile(e: Employee)
  {
    SafeStrip(Some(e.position), "") == "" || SafeStrip(Some(e.unit), "") == "" || SafeStrip(Some(e.unidadSubunidad), "") == ""
  }

  /** The directory row after onboarding: active, and with the form's position
      and unit (as `unidad_subunidad` too) when its profile had a blank field. */
  function OnboardedEmployee(e: Employee, position: string, unit: string): (r: Employee)
    ensures r.activo && r.inactivationDate.None? && r.email == e.email
    ensures NeedsProfile(e) ==> r.position == position && r.unit == unit && r.unidadSubunidad == unit
    ensures !NeedsProfile(e) ==> r.position == e.position && r.unit == e.unit && r.unidadSubunidad == e.unidadSubunidad
  {
    var active := e.(activo := true, inactivationDate := None);
    if NeedsProfile(e) then active.(position := position, unit := unit, unidadSubunidad := unit) else active
  }

  /** Two onboarding runs for the same employee and applications request the
      same applications in the same order; only the case and the responsible
      may differ. */
  lemma RerunRequestMatches(scotiaId: string, caseId: string, caseId2: string, responsible: string, responsible2: string,
                            apps: seq<Application>, i: nat)
    requires i < |OnboardingRequests(scotiaId, caseId2, responsible2, apps)|
    ensures var first := OnboardingRequests(scotiaId, caseId, responsible, apps);
      var second := OnboardingRequests(scotiaId, caseId2, responsible2, apps);
      && i < |first|
      && first[i].scotiaId == second[i].scotiaId
      && first[i].appAccessName == second[i].appAccessName
  {
    var kept := FirstPerTriple(apps);
    assert OnboardingRequests(scotiaId, caseId, responsible, apps) == GrantRecords(scotiaId, caseId, responsible, kept);
    assert OnboardingRequests(scotiaId, caseId2, responsible2, apps) == GrantRecords(scotiaId, caseId2, responsible2, kept);
  }

  /** Running onboarding a second time with the same arguments, while the first
      run's rows are still pending, writes nothing new. */
  lemma OnboardingRerunAddsNothing(ledger: seq<HistoryRow>, directory: map<string, Employee>, scotiaId: string, caseId: string, caseId2: string,
                                   responsible: string, responsible2: string, apps: seq<Application>, now: int, later: int)
    requires scotiaId != ""
    ensures var once := AppendAll(ledger, directory, OnboardingRequests(scotiaId, caseId, responsible, apps), now);
      AppendAll(once, directory, OnboardingRequests(scotiaId, caseId2, responsible2, apps), later) == once
  {
    var first := OnboardingRequests(scotiaId, caseId, responsible, apps);
    var second := OnboardingRequests(scotiaId, caseId2, responsible2, apps);
    AppendAllLeavesPending(ledger, directory, first, now);
    var once := AppendAll(ledger, directory, first, now);
    forall r | r in second
      ensures IsGrantRequest(r) && HasPending(once, r)
    {
      var i :| 0 <= i < |second| && second[i] == r;
      RerunRequestMatches(scotiaId, caseId, caseId2, responsible, responsible2, apps, i);
      assert first[i] in first;
    }
    PendingRequestsAddNothing(once, directory, second, later);
  }
}
