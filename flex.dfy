/** What `process_flex_staff_assignment` and `process_flex_staff_return`
    decide. An assignment grants the temporary position's applications the
    employee neither holds through a position grant nor has ever been given
    as flex staff, and revokes nothing; a return revokes each closed flex
    grant. */
module FlexStaff {
  import opened Base
  import opened AccessTypes
  import opened Ledger
  import opened Catalog
  import opened Projection

  /** The normalised, non-blank forms of `names`. */
  function NormNames(names: seq<string>): set<string>
    decreases |names|
  {
    if names == [] then {}
    else
      var n := Norm(names[|names| - 1]);
      NormNames(names[..|names| - 1]) + (if n != "" then {n} else {})
  }

  /** A name is in the set exactly when it normalises one of `names` and is not blank. */
  lemma {:induction false} NormNamesMeaning(names: seq<string>, n: string)
    ensures n in NormNames(names) <==> exists m :: m in names && Norm(m) != "" && Norm(m) == n
    decreases |names|
  {
    if names != [] {
      var front := names[..|names| - 1];
      assert forall m :: m in names <==> m in front || m == names[|names| - 1];
      NormNamesMeaning(front, n);
    }
  }

  /** The keys of `current_apps_by_name`: the normalised, non-blank names of
      the closed position grants and of every flex grant in any status. */
  function FlexHeldNames(ledger: seq<HistoryRow>, scotiaId: string): set<string>
  {
    NormNames(ClosedPositionApps(ledger, scotiaId) + AllFlexApps(ledger, scotiaId))
  }

  lemma NormNamesStep(names: seq<string>, i: nat)
    requires i < |names|
    ensures var n := Norm(names[i]);
      NormNames(names[..i + 1]) == NormNames(names[..i]) + (if n != "" then {n} else {})
  {
    assert names[..i + 1][..i] == names[..i];
  }

  /** The two loops filling `current_apps_by_name`, of which only the keys are read. */
  method CollectNormNames(names: seq<string>) returns (s: set<string>)
    ensures s == NormNames(names)
  {
    s := {};
    var i := 0;
    while i < |names|
      invariant 0 <= i <= |names|
      invariant s == NormNames(names[..i])
    {
      NormNamesStep(names, i);
      var n := Norm(names[i]);
      s := s + if n != "" then {n} else {};
      i := i + 1;
    }
    assert names[..i] == names;
  }

  /** `temp_apps_by_name`: the temporary position's catalog rows by normalised
      name, a later row replacing an earlier one. */
  function TempIndex(temp: seq<Application>): (d: Dict<string, Application>)
    ensures d.Valid()
  {
    IndexBy(temp, (a: Application) => NameKey(a) != "", NameKey, (a: Application) => a)
  }

  /** The catalog rows of the temporary position (`get_applications_by_position_flexible`, no sub-unit). */
  function TempApps(catalog: seq<Application>, tempPosition: string, tempUnit: string): seq<Application>
  {
    AppsByPositionFlexible(catalog, tempPosition, tempUnit)
  }

  /** The names of the index, in order, that are not held. */
  function MissingNames(d: Dict<string, Application>, held: set<string>): (r: seq<string>)
    requires d.Valid()
    ensures forall k :: k in r ==> k in d.values
  {
    Filter(d.keys, k => k !in held)
  }

  /** `to_grant_temp`: the temporary applications, in index order, whose name is not held. */
  function FlexGrants(temp: seq<Application>, held: set<string>): seq<Application>
  {
    var d := TempIndex(temp);
    ValuesAt(d, MissingNames(d, held))
  }

  /** The expiration written on a temporary grant: set only when a duration
      is given and is not zero. */
  function FlexExpiration(durationDays: Option<int>, expiresAt: int): (e: Option<int>)
    ensures e.Some? <==> durationDays.Some? && durationDays.value != 0
    ensures e.Some? ==> e.value == expiresAt
  {
    if durationDays.Some? && durationDays.value != 0 then Some(expiresAt) else None
  }

  function FlexGrantRecord(scotiaId: string, caseId: string, responsible: string, tempPosition: string, expiration: Option<int>, a: Application): RecordData
  {
    RecordData(scotiaId, caseId, responsible, FLEX_STAFF, a.subunit,
               "Otorgamiento temporal de acceso para " + a.logicalAccessName + " (flex staff - " + tempPosition + ")",
               a.pathEmailUrl, a.logicalAccessName, PENDIENTE, expiration)
  }

  function FlexGrantRecords(scotiaId: string, caseId: string, responsible: string, tempPosition: string, expiration: Option<int>,
                            grants: seq<Application>): (r: seq<RecordData>)
    ensures |r| == |grants| && forall i :: 0 <= i < |grants| ==> r[i] == FlexGrantRecord(scotiaId, caseId, responsible, tempPosition, expiration, grants[i])
  {
    seq(|grants|, i requires 0 <= i < |grants| => FlexGrantRecord(scotiaId, caseId, responsible, tempPosition, expiration, grants[i]))
  }

  /** Every record the assignment submits, in order: only temporary
      `flex_staff` grants, each carrying the expiration computed from the
      duration. */
  function FlexAssignmentRequests(ledger: seq<HistoryRow>, catalog: seq<Application>, scotiaId: string, caseId: string, responsible: string,
                                  tempPosition: string, tempUnit: string, durationDays: Option<int>, expiresAt: int): (r: seq<RecordData>)
    ensures forall x :: x in r ==>
      x.scotiaId == scotiaId && x.processAccess == FLEX_STAFF && x.status == PENDIENTE
      && x.expirationDate == FlexExpiration(durationDays, expiresAt)
  {
    var grants := FlexGrants(TempApps(catalog, tempPosition, tempUnit), FlexHeldNames(ledger, scotiaId));
    FlexGrantRecords(scotiaId, caseId, responsible, tempPosition, FlexExpiration(durationDays, expiresAt), grants)
  }

  /** The grants are temporary-position rows with pairwise different
      normalised names, none of them held; and every temporary row with a
      non-blank name that is not held has its name granted. */
  lemma FlexGrantsAreExactlyTheMissing(temp: seq<Application>, held: set<string>)
    ensures var r := FlexGrants(temp, held);
      && (forall i :: 0 <= i < |r| ==> r[i] in temp && NameKey(r[i]) != "" && NameKey(r[i]) !in held)
      && (forall i, j :: 0 <= i < j < |r| ==> NameKey(r[i]) != NameKey(r[j]))
      && (forall a :: a in temp && NameKey(a) != "" && NameKey(a) !in held ==> exists i :: 0 <= i < |r| && NameKey(r[i]) == NameKey(a))
  {
    var d := TempIndex(temp);
    var keep := (a: Application) => NameKey(a) != "";
    var val := (a: Application) => a;
    var keys := MissingNames(d, held);
    var r := FlexGrants(temp, held);
    forall k | k in d.values
      ensures d.values[k] in temp && NameKey(d.values[k]) != "" && NameKey(d.values[k]) == k
    {
      IndexByValue(temp, keep, NameKey, val, k);
    }
    forall i | 0 <= i < |r|
      ensures r[i] in temp && NameKey(r[i]) != "" && NameKey(r[i]) == keys[i] && NameKey(r[i]) !in held
    {
      assert keys[i] in keys;
    }
    assert Distinct(keys) by {
      FilterKeepsDistinct(d.keys, k => k !in held);
    }
    forall a | a in temp && NameKey(a) != "" && NameKey(a) !in held
      ensures exists i :: 0 <= i < |r| && NameKey(r[i]) == NameKey(a)
    {
      IndexByCovers(temp, keep, NameKey, val, a);
      assert NameKey(a) in keys;
      var i :| 0 <= i < |keys| && keys[i] == NameKey(a);
      assert NameKey(r[i]) == NameKey(a);
    }
  }

  /** Submitting requests that are all `Pendiente`, as every lifecycle
      operation does, leaves every employee's current access as it was: in
      particular a flex assignment revokes nothing. */
  lemma PendingRequestsKeepCurrentAccess(ledger: seq<HistoryRow>, directory: map<string, Employee>, catalog: seq<Application>,
                                         recs: seq<RecordData>, now: int, scotiaId: string)
    requires forall r :: r in recs ==> r.status == PENDIENTE
    ensures CurrentPositionAccess(AppendAll(ledger, directory, recs, now), directory, catalog, scotiaId)
         == CurrentPositionAccess(ledger, directory, catalog, scotiaId)
  {
    var l := AppendAll(ledger, directory, recs, now);
    AppendAllOnlyAdds(ledger, directory, recs, now);
    var extra := l[|ledger|..];
    assert l == ledger + extra;
    forall x | x in extra
      ensures x.data.status != CLOSED_COMPLETED
    {
      var i :| 0 <= i < |extra| && extra[i] == x;
      assert l[|ledger| + i] == x;
    }
    ProjectionIgnoresOpenRows(ledger, extra, directory, catalog, scotiaId);
  }

  /** As written: an assignment given a duration submits grants that each
      carry the expiration, yet every row it adds reads back through the
      flex-staff access query with no expiration at all. */
  lemma FlexExpiryIsDropped(ledger: seq<HistoryRow>, directory: map<string, Employee>, catalog: seq<Application>, scotiaId: string,
                            caseId: string, responsible: string, tempPosition: string, tempUnit: string, days: int, expiresAt: int, now: int)
    requires days != 0
    ensures var recs := FlexAssignmentRequests(ledger, catalog, scotiaId, caseId, responsible, tempPosition, tempUnit, Some(days), expiresAt);
      var l := AppendAll(ledger, directory, recs, now);
      && (forall x :: x in recs ==> x.expirationDate == Some(expiresAt))
      && forall i :: |ledger| <= i < |l| ==> FlexAccessOf(l[i]).expirationDate == None
  {
    var recs := FlexAssignmentRequests(ledger, catalog, scotiaId, caseId, responsible, tempPosition, tempUnit, Some(days), expiresAt);
    AppendAllOnlyAdds(ledger, directory, recs, now);
  }

  /** Corrected: when the stored row keeps the request's expiration, every
      row the assignment adds reads back with the expiration it was given. */
  lemma FlexExpiryIsKept(ledger: seq<HistoryRow>, directory: map<string, Employee>, catalog: seq<Application>, scotiaId: string,
                         caseId: string, responsible: string, tempPosition: string, tempUnit: string, days: int, expiresAt: int, now: int)
    requires days != 0
    ensures var recs := FlexAssignmentRequests(ledger, catalog, scotiaId, caseId, responsible, tempPosition, tempUnit, Some(days), expiresAt);
      var l := AppendAllKeepingExpiry(ledger, directory, recs, now);
      forall i :: |ledger| <= i < |l| ==> FlexAccessOf(l[i]).expirationDate == Some(expiresAt)
  {
    var recs := FlexAssignmentRequests(ledger, catalog, scotiaId, caseId, responsible, tempPosition, tempUnit, Some(days), expiresAt);
    AppendAllKeepingExpiryOnlyAdds(ledger, directory, recs, now);
  }

  // ---------------------------------------------------------------------
  // Return
  // ---------------------------------------------------------------------

  function FlexReturnRecord(scotiaId: string, caseId: string, responsible: string, f: FlexAccess): RecordData
  {
    RecordData(scotiaId, caseId, responsible, FLEX_STAFF_RETURN, f.subunit,
               "Revocación de acceso temporal para " + f.appName + " (retorno flex staff)",
               responsible + "@empresa.com", f.appName, PENDIENTE, None)
  }

  /** One `flex_staff_return` record per closed flex access, each naming a
      closed flex grant of the employee. */
  function FlexReturnRequests(ledger: seq<HistoryRow>, scotiaId: string, caseId: string, responsible: string): (r: seq<RecordData>)
    ensures |r| == |ClosedFlexAccess(ledger, scotiaId)|
    ensures forall x :: x in r ==>
      x.scotiaId == scotiaId && x.processAccess == FLEX_STAFF_RETURN && x.status == PENDIENTE
      && exists g :: g in ledger && IsClosedFlexGrant(g, scotiaId) && g.data.appAccessName == x.appAccessName && g.data.subunit == x.subunit
  {
    var flex := ClosedFlexAccess(ledger, scotiaId);
    var r := seq(|flex|, i requires 0 <= i < |flex| => FlexReturnRecord(scotiaId, caseId, responsible, flex[i]));
    assert forall x :: x in r ==> exists i :: 0 <= i < |flex| && x == FlexReturnRecord(scotiaId, caseId, responsible, flex[i]) && flex[i] in flex;
    r
  }
}
