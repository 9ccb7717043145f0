/** The read side of the `historico` ledger: the queries the lifecycle
    operations run to find out what an employee currently holds. The central
    one is `get_employee_current_position_access`, which shows an application
    only when the latest closed event for it is a grant and never when it is an
    `offboarding`. Rows come back in ledger order (the `ORDER BY` clauses are
    not modelled). */
module Projection {
  import opened Base
  import opened AccessTypes
  import opened Catalog

  // ---------------------------------------------------------------------
  // Last closed event per application
  // ---------------------------------------------------------------------

  /** The five processes whose closed rows decide an application's last process. */
  predicate IsTrackedProcess(p: string)
  {
    p == ONBOARDING || p == LATERAL_MOVEMENT || p == FLEX_STAFF || p == MANUAL_ACCESS || p == OFFBOARDING
  }

  /** A closed row of a tracked process, for this employee and exactly this application name. */
  predicate IsClosedEventOf(row: HistoryRow, scotiaId: string, app: string)
  {
    row.data.scotiaId == scotiaId && row.data.status == CLOSED_COMPLETED
    && IsTrackedProcess(row.data.processAccess) && row.data.appAccessName == app
  }

  /** The rows the `AllProcessesByApp` common table expression groups for one application. */
  function ClosedEventsOf(ledger: seq<HistoryRow>, scotiaId: string, app: string): (r: seq<HistoryRow>)
    ensures forall x :: x in r <==> x in ledger && IsClosedEventOf(x, scotiaId, app)
    decreases |ledger|
  {
    if ledger == [] then []
    else
      var last := ledger[|ledger| - 1];
      assert forall x :: x in ledger <==> x in ledger[..|ledger| - 1] || x == last;
      ClosedEventsOf(ledger[..|ledger| - 1], scotiaId, app) + (if IsClosedEventOf(last, scotiaId, app) then [last] else [])
  }

  /** A row of `rows` with the greatest `record_date`; on a tie the later row wins. */
  function Latest(rows: seq<HistoryRow>): (r: Option<HistoryRow>)
    ensures r.None? <==> rows == []
    ensures r.Some? ==> r.value in rows && forall x :: x in rows ==> x.recordDate <= r.value.recordDate
    decreases |rows|
  {
    if rows == [] then None
    else
      var p := Latest(rows[..|rows| - 1]);
      var last := rows[|rows| - 1];
      assert forall x :: x in rows <==> x in rows[..|rows| - 1] || x == last;
      if p.None? || p.value.recordDate <= last.recordDate then Some(last) else p
  }

  /** The row whose process is `LastProcessByApp.last_process` (`rn = 1`):
      the latest closed tracked event of the application, if any. */
  function LastEvent(ledger: seq<HistoryRow>, scotiaId: string, app: string): (r: Option<HistoryRow>)
    ensures r.None? <==> forall x :: x in ledger ==> !IsClosedEventOf(x, scotiaId, app)
    ensures r.Some? ==> r.value in ledger && IsClosedEventOf(r.value, scotiaId, app)
    ensures r.Some? ==> forall x :: x in ledger && IsClosedEventOf(x, scotiaId, app) ==> x.recordDate <= r.value.recordDate
  {
    Latest(ClosedEventsOf(ledger, scotiaId, app))
  }

  // ---------------------------------------------------------------------
  // The flex-staff position filter
  // ---------------------------------------------------------------------

  const FLEX_MARK := "(flex staff - "

  /** The first index of `c` in `s`. */
  function FirstIndexOf(s: string, c: char): (r: Option<nat>)
    ensures r.None? <==> c !in s
    ensures r.Some? ==> r.value < |s| && s[r.value] == c && c !in s[..r.value]
    decreases |s|
  {
    if s == [] then None
    else if s[0] == c then Some(0)
    else
      var p := FirstIndexOf(s[1..], c);
      assert forall i :: 1 <= i < |s| ==> s[1..][i - 1] == s[i];
      if p.None? then None
      else
        assert s[..p.value + 1] == [s[0]] + s[1..][..p.value];
        Some(p.value + 1)
  }

  /** A match of `\(flex staff - ([^)]+)\)` in `s` starting at `k`: the
      marker at `k`, then at least one character other than ')', then the
      ')' at `j`. */
  predicate FlexMatchAt(s: string, k: int, j: int)
  {
    0 <= k && k + |FLEX_MARK| < j < |s| && s[k..k + |FLEX_MARK|] == FLEX_MARK && s[j] == ')'
    && forall t :: k + |FLEX_MARK| <= t < j ==> s[t] != ')'
  }

  /** The match `re.search` reports: no match starts further left. */
  ghost predicate IsLeftmostFlexMatch(s: string, k: int, j: int)
  {
    FlexMatchAt(s, k, j) && forall i, i' :: 0 <= i < k ==> !FlexMatchAt(s, i, i')
  }

  /** `re.search(r'\(flex staff - ([^)]+)\)', s).group(1)`: no result
      exactly when the pattern matches nowhere, otherwise the group of the
      leftmost match. */
  function FlexPositionIn(s: string): (r: Option<string>)
    ensures r.None? <==> forall k, j :: !FlexMatchAt(s, k, j)
    ensures r.Some? ==> exists k, j :: IsLeftmostFlexMatch(s, k, j) && r.value == s[k + |FLEX_MARK|..j]
    ensures r.Some? ==> r.value != [] && ')' !in r.value && Contains(s, FLEX_MARK + r.value + ")")
    decreases |s|
  {
    if |s| < |FLEX_MARK| then None
    else
      var rest := s[|FLEX_MARK|..];
      var p := FirstIndexOf(rest, ')');
      if s[..|FLEX_MARK|] == FLEX_MARK && p.Some? && p.value > 0 then
        var pos := rest[..p.value];
        assert s[..|FLEX_MARK| + p.value + 1] == FLEX_MARK + pos + ")";
        FlexMatchAtStart(s, p.value);
        Some(pos)
      else
        NoFlexMatchAtStart(s);
        var r := FlexPositionIn(s[1..]);
        FlexSearchMovesRight(s, r);
        r
  }

  /** The marker at the start, then `p` characters other than ')', then a
      ')': the leftmost match. */
  lemma FlexMatchAtStart(s: string, p: nat)
    requires |FLEX_MARK| <= |s| && s[..|FLEX_MARK|] == FLEX_MARK
    requires FirstIndexOf(s[|FLEX_MARK|..], ')') == Some(p) && p > 0
    ensures IsLeftmostFlexMatch(s, 0, |FLEX_MARK| + p)
    ensures s[|FLEX_MARK|..][..p] == s[|FLEX_MARK|..|FLEX_MARK| + p]
  {
    var rest := s[|FLEX_MARK|..];
    forall t | |FLEX_MARK| <= t < |FLEX_MARK| + p
      ensures s[t] != ')'
    {
      assert rest[..p][t - |FLEX_MARK|] == s[t];
    }
  }

  /** When the start fails the test of `FlexPositionIn`, no match starts there. */
  lemma NoFlexMatchAtStart(s: string)
    requires |FLEX_MARK| <= |s|
    requires !(s[..|FLEX_MARK|] == FLEX_MARK && FirstIndexOf(s[|FLEX_MARK|..], ')').Some?
               && FirstIndexOf(s[|FLEX_MARK|..], ')').value > 0)
    ensures forall j :: !FlexMatchAt(s, 0, j)
  {
    var rest := s[|FLEX_MARK|..];
    forall j | |FLEX_MARK| < j < |s|
      ensures !FlexMatchAt(s, 0, j)
    {
      assert rest[j - |FLEX_MARK|] == s[j];
      assert rest[0] == s[|FLEX_MARK|];
    }
  }

  /** A match in `s[1..]` is a match in `s` one place further right. */
  lemma FlexMatchShift(s: string, k: int, j: int)
    requires |s| > 0 && k >= 1
    ensures FlexMatchAt(s, k, j) <==> FlexMatchAt(s[1..], k - 1, j - 1)
  {
    if k + |FLEX_MARK| < j < |s| {
      assert s[1..][k - 1..k - 1 + |FLEX_MARK|] == s[k..k + |FLEX_MARK|];
      assert forall t :: k + |FLEX_MARK| <= t < j ==> s[1..][t - 1] == s[t];
    }
  }

  /** With no match at the start, searching `s` is searching `s[1..]`. */
  lemma FlexSearchMovesRight(s: string, r: Option<string>)
    requires |s| > 0
    requires forall j :: !FlexMatchAt(s, 0, j)
    requires r.None? <==> forall k, j :: !FlexMatchAt(s[1..], k, j)
    requires r.Some? ==> exists k, j :: IsLeftmostFlexMatch(s[1..], k, j) && r.value == s[1..][k + |FLEX_MARK|..j]
    ensures r.None? <==> forall k, j :: !FlexMatchAt(s, k, j)
    ensures r.Some? ==> exists k, j :: IsLeftmostFlexMatch(s, k, j) && r.value == s[k + |FLEX_MARK|..j]
  {
    forall k, j | k >= 1
      ensures FlexMatchAt(s, k, j) <==> FlexMatchAt(s[1..], k - 1, j - 1)
    {
      FlexMatchShift(s, k, j);
    }
    if r.Some? {
      var k, j :| IsLeftmostFlexMatch(s[1..], k, j) && r.value == s[1..][k + |FLEX_MARK|..j];
      assert FlexMatchAt(s, k + 1, j + 1);
      assert s[1..][k + |FLEX_MARK|..j] == s[k + 1 + |FLEX_MARK|..j + 1];
      assert IsLeftmostFlexMatch(s, k + 1, j + 1);
    } else {
      forall k, j
        ensures !FlexMatchAt(s, k, j)
      {
        if k >= 1 {
          assert !FlexMatchAt(s[1..], k - 1, j - 1);
        }
      }
    }
  }

  /** A closed `flex_staff` row of the employee. */
  predicate IsClosedFlexGrant(row: HistoryRow, scotiaId: string)
  {
    row.data.scotiaId == scotiaId && row.data.processAccess == FLEX_STAFF && row.data.status == CLOSED_COMPLETED
  }

  function ClosedFlexGrants(ledger: seq<HistoryRow>, scotiaId: string): (r: seq<HistoryRow>)
    ensures forall x :: x in r <==> x in ledger && IsClosedFlexGrant(x, scotiaId)
    decreases |ledger|
  {
    if ledger == [] then []
    else
      var last := ledger[|ledger| - 1];
      assert forall x :: x in ledger <==> x in ledger[..|ledger| - 1] || x == last;
      ClosedFlexGrants(ledger[..|ledger| - 1], scotiaId) + (if IsClosedFlexGrant(last, scotiaId) then [last] else [])
  }

  /** The temporary position named by the latest closed flex grant, stripped. */
  function CurrentFlexPosition(ledger: seq<HistoryRow>, scotiaId: string): Option<string>
  {
    match Latest(ClosedFlexGrants(ledger, scotiaId))
    case None => None
    case Some(row) =>
      match FlexPositionIn(row.data.eventDescription)
      case None => None
      case Some(p) => Some(Strip(p))
  }

  /** The two employee-dependent filters of the projection: the current
      (`unidad_subunidad`, `position`) pair when the employee has an active
      headcount row with a non-empty `unidad_subunidad`, and the pattern flex
      rows must contain. */
  datatype Scope = Scope(lateral: Option<(string, string)>, flexPattern: string)

  function ScopeFor(ledger: seq<HistoryRow>, directory: map<string, Employee>, scotiaId: string): (s: Scope)
    ensures s.lateral.Some? <==> scotiaId in directory && directory[scotiaId].activo && directory[scotiaId].unidadSubunidad != ""
  {
    var lateral :=
      if scotiaId in directory && directory[scotiaId].activo && directory[scotiaId].unidadSubunidad != "" then
        Some((directory[scotiaId].unidadSubunidad, directory[scotiaId].position))
      else None;
    var pos := CurrentFlexPosition(ledger, scotiaId);
    Scope(lateral, if pos.Some? && pos.value != "" then "flex staff - " + pos.value else "flex staff")
  }

  // ---------------------------------------------------------------------
  // get_employee_current_position_access
  // ---------------------------------------------------------------------

  /** One row of the projection (the `GROUP BY` columns the callers read). */
  datatype CurrentAccess = CurrentAccess(appName: string, processAccess: string, subunit: string, status: string)

  function EntryOf(row: HistoryRow): CurrentAccess
  {
    CurrentAccess(row.data.appAccessName, row.data.processAccess, row.data.subunit, row.data.status)
  }

  /** The `lateral_condition`: with a current position, a lateral grant shows
      only when some catalog row of that application belongs to it. */
  predicate LateralAllowed(catalog: seq<Application>, scope: Scope, row: HistoryRow)
  {
    scope.lateral.None?
    || exists a :: a in catalog && a.logicalAccessName == row.data.appAccessName
         && a.unidadSubunidad == scope.lateral.value.0 && a.positionRole == scope.lateral.value.1
  }

  /** The WHERE clause of the main query for one ledger row. */
  predicate IsShown(ledger: seq<HistoryRow>, catalog: seq<Application>, scope: Scope, scotiaId: string, row: HistoryRow)
  {
    && IsClosedEventOf(row, scotiaId, row.data.appAccessName)
    && row.data.processAccess != OFFBOARDING
    && LastEvent(ledger, scotiaId, row.data.appAccessName).Some?
    && LastEvent(ledger, scotiaId, row.data.appAccessName).value.data.processAccess == row.data.processAccess
    && (row.data.processAccess == LATERAL_MOVEMENT ==> LateralAllowed(catalog, scope, row))
    && (row.data.processAccess == FLEX_STAFF ==> Contains(row.data.eventDescription, scope.flexPattern))
  }

  function ShownEntries(ledger: seq<HistoryRow>, catalog: seq<Application>, scope: Scope, scotiaId: string, rows: seq<HistoryRow>): (r: seq<CurrentAccess>)
    ensures forall e :: e in r <==> exists x :: x in rows && IsShown(ledger, catalog, scope, scotiaId, x) && EntryOf(x) == e
    decreases |rows|
  {
    if rows == [] then []
    else
      var last := rows[|rows| - 1];
      assert forall x :: x in rows <==> x in rows[..|rows| - 1] || x == last;
      ShownEntries(ledger, catalog, scope, scotiaId, rows[..|rows| - 1])
        + (if IsShown(ledger, catalog, scope, scotiaId, last) then [EntryOf(last)] else [])
  }

  /** `get_employee_current_position_access`: each shown access once. Every
      entry is a closed grant whose application's latest closed event is that
      very grant, so an application whose latest closed event is an
      `offboarding` never appears. */
  function CurrentPositionAccess(ledger: seq<HistoryRow>, directory: map<string, Employee>, catalog: seq<Application>, scotiaId: string): (r: seq<CurrentAccess>)
    ensures Distinct(r)
    ensures forall e :: e in r ==>
      && e.status == CLOSED_COMPLETED && e.processAccess != OFFBOARDING && IsTrackedProcess(e.processAccess)
      && LastEvent(ledger, scotiaId, e.appName).Some?
      && LastEvent(ledger, scotiaId, e.appName).value.data.processAccess == e.processAccess
  {
    Dedup(ShownEntries(ledger, catalog, ScopeFor(ledger, directory, scotiaId), scotiaId, ledger))
  }

  /** Onboarding and manual grants are shown without any position filter:
      such a row is current as soon as it is its application's latest closed event. */
  lemma UnfilteredGrantIsCurrent(ledger: seq<HistoryRow>, directory: map<string, Employee>, catalog: seq<Application>, scotiaId: string, row: HistoryRow)
    requires row in ledger && IsClosedEventOf(row, scotiaId, row.data.appAccessName)
    requires row.data.processAccess == ONBOARDING || row.data.processAccess == MANUAL_ACCESS
    requires LastEvent(ledger, scotiaId, row.data.appAccessName).value.data.processAccess == row.data.processAccess
    ensures EntryOf(row) in CurrentPositionAccess(ledger, directory, catalog, scotiaId)
  {
    assert IsShown(ledger, catalog, ScopeFor(ledger, directory, scotiaId), scotiaId, row);
  }

  /** With a current position, a lateral grant for an application that has
      no catalog row in that position is not shown. */
  lemma LateralOutsidePositionHidden(ledger: seq<HistoryRow>, directory: map<string, Employee>, catalog: seq<Application>, scotiaId: string, app: string)
    requires scotiaId in directory && directory[scotiaId].activo && directory[scotiaId].unidadSubunidad != ""
    requires forall a :: a in catalog && a.logicalAccessName == app ==>
      a.unidadSubunidad != directory[scotiaId].unidadSubunidad || a.positionRole != directory[scotiaId].position
    ensures forall e :: e in CurrentPositionAccess(ledger, directory, catalog, scotiaId) && e.appName == app ==> e.processAccess != LATERAL_MOVEMENT
  {
    var scope := ScopeFor(ledger, directory, scotiaId);
    forall e | e in CurrentPositionAccess(ledger, directory, catalog, scotiaId) && e.appName == app
      ensures e.processAccess != LATERAL_MOVEMENT
    {
      var x :| x in ledger && IsShown(ledger, catalog, scope, scotiaId, x) && EntryOf(x) == e;
    }
  }

  // ---------------------------------------------------------------------
  // Rows that are not closed do not change the projection
  // ---------------------------------------------------------------------

  lemma {:induction false} ClosedEventsIgnoreOpenRows(ledger: seq<HistoryRow>, extra: seq<HistoryRow>, scotiaId: string, app: string)
    requires forall x :: x in extra ==> x.data.status != CLOSED_COMPLETED
    ensures ClosedEventsOf(ledger + extra, scotiaId, app) == ClosedEventsOf(ledger, scotiaId, app)
    ensures ClosedFlexGrants(ledger + extra, scotiaId) == ClosedFlexGrants(ledger, scotiaId)
    decreases |extra|
  {
    if extra != [] {
      var front := extra[..|extra| - 1];
      var l := ledger + extra;
      var last := extra[|extra| - 1];
      assert l[..|l| - 1] == ledger + front && l[|l| - 1] == last;
      assert last in extra;
      ClosedEventsIgnoreOpenRows(ledger, front, scotiaId, app);
      assert ClosedEventsOf(l, scotiaId, app) == ClosedEventsOf(ledger + front, scotiaId, app) + [];
      assert ClosedFlexGrants(l, scotiaId) == ClosedFlexGrants(ledger + front, scotiaId) + [];
    } else {
      assert ledger + extra == ledger;
    }
  }

  lemma {:induction false} ShownEntriesIgnoreOpenRows(ledger: seq<HistoryRow>, extra: seq<HistoryRow>, catalog: seq<Application>, scope: Scope, scotiaId: string, rows: seq<HistoryRow>)
    requires forall x :: x in extra ==> x.data.status != CLOSED_COMPLETED
    ensures ShownEntries(ledger + extra, catalog, scope, scotiaId, rows) == ShownEntries(ledger, catalog, scope, scotiaId, rows)
    decreases |rows|
  {
    if rows != [] {
      ShownEntriesIgnoreOpenRows(ledger, extra, catalog, scope, scotiaId, rows[..|rows| - 1]);
      ClosedEventsIgnoreOpenRows(ledger, extra, scotiaId, rows[|rows| - 1].data.appAccessName);
    }
  }

  lemma {:induction false} OpenRowsAreNotShown(ledger: seq<HistoryRow>, catalog: seq<Application>, scope: Scope, scotiaId: string, rows: seq<HistoryRow>, extra: seq<HistoryRow>)
    requires forall x :: x in extra ==> x.data.status != CLOSED_COMPLETED
    ensures ShownEntries(ledger, catalog, scope, scotiaId, rows + extra) == ShownEntries(ledger, catalog, scope, scotiaId, rows)
    decreases |extra|
  {
    if extra != [] {
      var front := extra[..|extra| - 1];
      var l := rows + extra;
      var last := extra[|extra| - 1];
      assert l[..|l| - 1] == rows + front && l[|l| - 1] == last;
      assert last in extra;
      OpenRowsAreNotShown(ledger, catalog, scope, scotiaId, rows, front);
      assert ShownEntries(ledger, catalog, scope, scotiaId, l) == ShownEntries(ledger, catalog, scope, scotiaId, rows + front) + [];
    } else {
      assert rows + extra == rows;
    }
  }

  /** Appending rows that are not closed (every row a lifecycle operation
      writes is `Pendiente`) leaves every employee's current access unchanged. */
  lemma ProjectionIgnoresOpenRows(ledger: seq<HistoryRow>, extra: seq<HistoryRow>, directory: map<string, Employee>, catalog: seq<Application>, scotiaId: string)
    requires forall x :: x in extra ==> x.data.status != CLOSED_COMPLETED
    ensures CurrentPositionAccess(ledger + extra, directory, catalog, scotiaId) == CurrentPositionAccess(ledger, directory, catalog, scotiaId)
  {
    ClosedEventsIgnoreOpenRows(ledger, extra, scotiaId, "");
    var scope := ScopeFor(ledger, directory, scotiaId);
    assert ScopeFor(ledger + extra, directory, scotiaId) == scope;
    OpenRowsAreNotShown(ledger + extra, catalog, scope, scotiaId, ledger, extra);
    ShownEntriesIgnoreOpenRows(ledger, extra, catalog, scope, scotiaId, ledger);
  }

  // ---------------------------------------------------------------------
  // The other history queries
  // ---------------------------------------------------------------------

  /** A row `get_employee_current_access` returns: a closed onboarding or lateral grant. */
  predicate IsClosedPositionGrant(row: HistoryRow, scotiaId: string)
  {
    row.data.scotiaId == scotiaId && row.data.status == CLOSED_COMPLETED
    && (row.data.processAccess == ONBOARDING || row.data.processAccess == LATERAL_MOVEMENT)
  }

  /** The application names of `get_employee_current_access`. */
  function ClosedPositionApps(ledger: seq<HistoryRow>, scotiaId: string): (r: seq<string>)
    ensures forall n :: n in r <==> exists x :: x in ledger && IsClosedPositionGrant(x, scotiaId) && x.data.appAccessName == n
    decreases |ledger|
  {
    if ledger == [] then []
    else
      var last := ledger[|ledger| - 1];
      assert forall x :: x in ledger <==> x in ledger[..|ledger| - 1] || x == last;
      ClosedPositionApps(ledger[..|ledger| - 1], scotiaId)
        + (if IsClosedPositionGrant(last, scotiaId) then [last.data.appAccessName] else [])
  }

  /** The application names of `_get_all_flex_staff_access`: flex grants in any status. */
  function AllFlexApps(ledger: seq<HistoryRow>, scotiaId: string): (r: seq<string>)
    ensures forall n :: n in r <==> exists x :: x in ledger && x.data.scotiaId == scotiaId && x.data.processAccess == FLEX_STAFF && x.data.appAccessName == n
    decreases |ledger|
  {
    if ledger == [] then []
    else
      var last := ledger[|ledger| - 1];
      assert forall x :: x in ledger <==> x in ledger[..|ledger| - 1] || x == last;
      AllFlexApps(ledger[..|ledger| - 1], scotiaId)
        + (if last.data.scotiaId == scotiaId && last.data.processAccess == FLEX_STAFF then [last.data.appAccessName] else [])
  }

  /** The `SELECT DISTINCT` columns of `get_employee_flex_staff_access`. */
  datatype FlexAccess = FlexAccess(appName: string, subunit: string, eventDescription: string, recordDate: int, status: string, expirationDate: Option<int>)

  function FlexAccessOf(row: HistoryRow): FlexAccess
  {
    FlexAccess(row.data.appAccessName, row.data.subunit, row.data.eventDescription, row.recordDate, row.data.status, row.data.expirationDate)
  }

  function FlexAccessRows(rows: seq<HistoryRow>): (r: seq<FlexAccess>)
    ensures |r| == |rows| && forall i :: 0 <= i < |rows| ==> r[i] == FlexAccessOf(rows[i])
  {
    seq(|rows|, i requires 0 <= i < |rows| => FlexAccessOf(rows[i]))
  }

  /** `get_employee_flex_staff_access`: the distinct closed flex grants. */
  function ClosedFlexAccess(ledger: seq<HistoryRow>, scotiaId: string): (r: seq<FlexAccess>)
    ensures Distinct(r)
    ensures forall f :: f in r <==> exists x :: x in ledger && IsClosedFlexGrant(x, scotiaId) && FlexAccessOf(x) == f
  {
    var rows := ClosedFlexGrants(ledger, scotiaId);
    var r := Dedup(FlexAccessRows(rows));
    assert forall f :: f in FlexAccessRows(rows) <==> exists i :: 0 <= i < |rows| && FlexAccessOf(rows[i]) == f;
    r
  }

  // ---------------------------------------------------------------------
  // Offboarding candidates
  // ---------------------------------------------------------------------

  /** `UPPER(LTRIM(RTRIM(status))) = 'CLOSED COMPLETED'`. */
  predicate IsClosedStatus(status: string)
  {
    SqlNorm(status) == "CLOSED COMPLETED"
  }

  /** The status the closing step writes passes the test. */
  lemma ClosedCompletedIsClosedStatus()
    ensures IsClosedStatus(CLOSED_COMPLETED)
  {
    TrimEndOfTrimmed(CLOSED_COMPLETED, IsBlank);
    TrimStartOfTrimmed(CLOSED_COMPLETED, IsBlank);
    UpperOfClosedCompleted();
  }

  lemma UpperOfClosedCompleted()
    ensures Upper(CLOSED_COMPLETED) == "CLOSED COMPLETED"
  {
    var u := Upper(CLOSED_COMPLETED);
    forall i | 0 <= i < |u|
      ensures u[i] == "CLOSED COMPLETED"[i]
    {
      assert UpperChar(CLOSED_COMPLETED[i]) == "CLOSED COMPLETED"[i];
    }
  }

  /** A closed offboarding of `app` dated no earlier than `since`. */
  predicate RevokedSince(ledger: seq<HistoryRow>, scotiaId: string, app: string, since: int)
  {
    exists x :: x in ledger && x.data.scotiaId == scotiaId && x.data.appAccessName == app
      && x.data.processAccess == OFFBOARDING && IsClosedStatus(x.data.status) && x.recordDate >= since
  }

  /** The WHERE clause of the offboarding query for one row: a closed grant
      that no later closed offboarding of the same application has revoked. */
  predicate IsOffboardingCandidate(ledger: seq<HistoryRow>, scotiaId: string, row: HistoryRow)
  {
    && row.data.scotiaId == scotiaId && IsClosedStatus(row.data.status)
    && (row.data.processAccess == ONBOARDING || row.data.processAccess == LATERAL_MOVEMENT
        || row.data.processAccess == FLEX_STAFF || row.data.processAccess == MANUAL_ACCESS)
    && !RevokedSince(ledger, scotiaId, row.data.appAccessName, row.recordDate)
  }

  function CandidatesAmong(ledger: seq<HistoryRow>, scotiaId: string, rows: seq<HistoryRow>): (r: seq<HistoryRow>)
    ensures forall x :: x in r <==> x in rows && IsOffboardingCandidate(ledger, scotiaId, x)
    decreases |rows|
  {
    if rows == [] then []
    else
      var last := rows[|rows| - 1];
      assert forall x :: x in rows <==> x in rows[..|rows| - 1] || x == last;
      CandidatesAmong(ledger, scotiaId, rows[..|rows| - 1]) + (if IsOffboardingCandidate(ledger, scotiaId, last) then [last] else [])
  }

  /** The rows `process_employee_offboarding` considers revoking (one per ledger row). */
  function OffboardingCandidates(ledger: seq<HistoryRow>, scotiaId: string): (r: seq<HistoryRow>)
    ensures forall x :: x in r <==> x in ledger && IsOffboardingCandidate(ledger, scotiaId, x)
  {
    CandidatesAmong(ledger, scotiaId, ledger)
  }

  /** A row that is not closed is no candidate itself. */
  lemma OpenRowIsNoCandidate(ledger: seq<HistoryRow>, scotiaId: string, rows: seq<HistoryRow>, row: HistoryRow)
    requires !IsClosedStatus(row.data.status)
    ensures CandidatesAmong(ledger, scotiaId, rows + [row]) == CandidatesAmong(ledger, scotiaId, rows)
  {
    assert (rows + [row])[..|rows|] == rows;
  }

  /** "Pendiente" is not a closed status, whatever the trimming and case. */
  lemma PendingIsNotClosed()
    ensures !IsClosedStatus(PENDIENTE)
  {
    assert SqlNorm(PENDIENTE)[0] == 'P';
  }

  /** Pending rows (every row a lifecycle operation writes) do not change the
      candidates, so re-running offboarding before its revocations are closed
      finds the same rows again. */
  lemma {:induction false} CandidatesIgnorePendingRows(ledger: seq<HistoryRow>, extra: seq<HistoryRow>, scotiaId: string, rows: seq<HistoryRow>)
    requires forall x :: x in extra ==> x.data.status == PENDIENTE
    ensures CandidatesAmong(ledger + extra, scotiaId, rows + extra) == CandidatesAmong(ledger, scotiaId, rows)
    decreases |extra|
  {
    if extra != [] {
      var front := extra[..|extra| - 1];
      var last := extra[|extra| - 1];
      assert last in extra;
      assert forall x :: x in front ==> x in extra;
      assert extra == front + [last];
      assert ledger + extra == (ledger + front) + [last];
      assert rows + extra == (rows + front) + [last];
      PendingIsNotClosed();
      OpenRowIsNoCandidate(ledger + extra, scotiaId, rows + front, last);
      CandidatesSameWithOpenRow(ledger + front, last, scotiaId, rows + front);
      CandidatesIgnorePendingRows(ledger, front, scotiaId, rows);
    } else {
      assert ledger + extra == ledger && rows + extra == rows;
    }
  }

  /** An element of `s + [y]` other than `y` is an element of `s`. */
  lemma InFrontOfLast(s: seq<HistoryRow>, y: HistoryRow, x: HistoryRow)
    requires x in s + [y] && x != y
    ensures x in s
  {
  }

  /** A closed revocation found after appending a row that is not closed was
      already there. */
  lemma RevokedSinceSkipsOpenRow(ledger: seq<HistoryRow>, row: HistoryRow, scotiaId: string, app: string, since: int)
    requires !IsClosedStatus(row.data.status)
    requires RevokedSince(ledger + [row], scotiaId, app, since)
    ensures RevokedSince(ledger, scotiaId, app, since)
  {
    var x :| x in ledger + [row] && x.data.scotiaId == scotiaId && x.data.appAccessName == app
      && x.data.processAccess == OFFBOARDING && IsClosedStatus(x.data.status) && x.recordDate >= since;
    if x == row {
      assert false;
    }
    InFrontOfLast(ledger, row, x);
  }

  /** Adding rows never withdraws a revocation. */
  lemma RevokedSinceGrows(ledger: seq<HistoryRow>, closed: seq<HistoryRow>, scotiaId: string, app: string, since: int)
    ensures RevokedSince(ledger, scotiaId, app, since) ==> RevokedSince(ledger + closed, scotiaId, app, since)
  {
    if RevokedSince(ledger, scotiaId, app, since) {
      var x :| x in ledger && x.data.scotiaId == scotiaId && x.data.appAccessName == app
        && x.data.processAccess == OFFBOARDING && IsClosedStatus(x.data.status) && x.recordDate >= since;
      assert x in ledger + closed;
    }
  }

  /** A row that is not closed is never a closed revocation. */
  lemma RevokedSinceOpenRow(ledger: seq<HistoryRow>, row: HistoryRow, scotiaId: string, app: string, since: int)
    requires !IsClosedStatus(row.data.status)
    ensures RevokedSince(ledger + [row], scotiaId, app, since) == RevokedSince(ledger, scotiaId, app, since)
  {
    if RevokedSince(ledger + [row], scotiaId, app, since) {
      RevokedSinceSkipsOpenRow(ledger, row, scotiaId, app, since);
    }
    RevokedSinceGrows(ledger, [row], scotiaId, app, since);
  }

  lemma {:induction false} CandidatesSameWithOpenRow(ledger: seq<HistoryRow>, row: HistoryRow, scotiaId: string, rows: seq<HistoryRow>)
    requires !IsClosedStatus(row.data.status)
    ensures CandidatesAmong(ledger + [row], scotiaId, rows) == CandidatesAmong(ledger, scotiaId, rows)
    decreases |rows|
  {
    if rows != [] {
      CandidatesSameWithOpenRow(ledger, row, scotiaId, rows[..|rows| - 1]);
      var x := rows[|rows| - 1];
      RevokedSinceOpenRow(ledger, row, scotiaId, x.data.appAccessName, x.recordDate);
    }
  }
}
